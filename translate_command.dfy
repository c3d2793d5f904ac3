/**
 * The translate command: the selection is split into lines, capped and
 * normalised, each line translated (blank lines skipped), the line answers
 * combined into one result, cached and recorded, for one target language or
 * for each of several.
 *
 * The backend is an oracle: `Answers` holds what it answered for the whole
 * text and for each line. The configuration values are parameters.
 */
module TranslateCommand {
  import opened Wrappers
  import opened Strings
  import opened Types
  import opened NormalizeInput
  import opened TranslationCache
  import opened TranslationHistory
  import opened RenderTypes

  /** One line's outcome: its translation, or the error message. */
  datatype LineResult =
    | LineOk(text: string, fromLang: Option<string>, version: Option<Version>)
    | LineErr(error: string)

  /**
   * `toLineResult`: a success is kept with its text, detected language and
   * version (the target language is dropped); an error keeps its message.
   */
  function ToLineResult(r: ApiResult): (l: LineResult)
    ensures l.LineOk? <==> r.ApiSuccess?
    ensures r.ApiSuccess? ==> l.text == r.text && l.fromLang == r.fromLang && l.version == r.version
    ensures r.ApiError? ==> l.error == r.text
  {
    match r
    case ApiSuccess(text, fromLang, _, version) => LineOk(text, fromLang, version)
    case ApiError(text) => LineErr(text)
  }

  // ---- Target languages ----------------------------------------------------

  /** One comma-separated item, trimmed and lower-cased. */
  function CleanLanguage(item: string): string {
    ToLower(Trim(item))
  }

  /** The cleaned items that are not empty, in order. */
  function KeepLanguages(items: seq<string>): (r: seq<string>)
    ensures |r| <= |items|
  {
    if items == [] then []
    else
      var lang := CleanLanguage(items[0]);
      (if lang == [] then [] else [lang]) + KeepLanguages(items[1..])
  }

  /** `parseTargetLanguages`. */
  function ParseTargetLanguages(raw: string): seq<string> {
    KeepLanguages(Split(raw, ','))
  }

  /** A language code as `parseTargetLanguages` hands it on. */
  predicate CleanCode(s: string) {
    s != [] && Unpadded(s) && IsLowerCase(s)
  }

  lemma LowerCharWhitespace(c: char)
    ensures IsWhitespace(LowerChar(c)) <==> IsWhitespace(c)
  {
  }

  lemma CleanLanguageShape(item: string)
    ensures Unpadded(CleanLanguage(item)) && IsLowerCase(CleanLanguage(item))
  {
    var t := Trim(item);
    TrimUnpadded(item);
    ToLowerChars(t);
    ToLowerIsLowerCase(t);
    if t != [] {
      LowerCharWhitespace(t[0]);
      LowerCharWhitespace(t[|t| - 1]);
    }
  }

  lemma {:induction false} KeepLanguagesClean(items: seq<string>)
    ensures forall i :: 0 <= i < |KeepLanguages(items)| ==> CleanCode(KeepLanguages(items)[i])
  {
    if items != [] {
      KeepLanguagesClean(items[1..]);
      CleanLanguageShape(items[0]);
    }
  }

  /** Every target language is non-empty, has no surrounding whitespace and is lower case. */
  lemma TargetLanguagesClean(raw: string)
    ensures forall i :: 0 <= i < |ParseTargetLanguages(raw)| ==> CleanCode(ParseTargetLanguages(raw)[i])
  {
    KeepLanguagesClean(Split(raw, ','));
  }

  lemma {:induction false} KeepCleanLanguages(langs: seq<string>)
    requires forall i :: 0 <= i < |langs| ==> CleanCode(langs[i])
    ensures KeepLanguages(langs) == langs
  {
    if langs != [] {
      KeepCleanLanguages(langs[1..]);
      TrimOfUnpadded(langs[0]);
      ToLowerOfLowerCase(langs[0]);
    }
  }

  /** Clean codes written as a comma-separated list are read back unchanged. */
  lemma TargetLanguagesRoundTrip(langs: seq<string>)
    requires forall i :: 0 <= i < |langs| ==> CleanCode(langs[i]) && ',' !in langs[i]
    ensures ParseTargetLanguages(Join(langs, ",")) == langs
  {
    if langs == [] {
      assert Split("", ',') == [""];
      assert Trim("") == [] by { TrimOfUnpadded(""); }
    } else {
      SplitJoin(langs, ',');
      KeepCleanLanguages(langs);
    }
  }

  // ---- Line results ----------------------------------------------------------

  /** `BLANK_LINE`: whitespace only. */
  predicate Blank(line: string) {
    AllWhitespace(line)
  }

  /** A blank line becomes `''` without a backend call; any other line is the backend's answer. */
  function LineResultFor(line: string, answer: ApiResult): LineResult {
    if Blank(line) then LineOk("", None, None) else ToLineResult(answer)
  }

  function LineResults(lines: seq<string>, answers: seq<ApiResult>): (rs: seq<LineResult>)
    requires |answers| == |lines|
    ensures |rs| == |lines|
  {
    if lines == [] then []
    else [LineResultFor(lines[0], answers[0])] + LineResults(lines[1..], answers[1..])
  }

  lemma {:induction false} LineResultsAt(lines: seq<string>, answers: seq<ApiResult>, i: nat)
    requires |answers| == |lines| && i < |lines|
    ensures LineResults(lines, answers)[i] == LineResultFor(lines[i], answers[i])
  {
    if i > 0 {
      LineResultsAt(lines[1..], answers[1..], i - 1);
    }
  }

  /** What a `find` over the line results looks for. */
  datatype Probe = Failed | HasLang | HasVersion

  predicate Matches(r: LineResult, p: Probe) {
    match p
    case Failed => r.LineErr?
    case HasLang => r.LineOk? && r.fromLang.Some?
    case HasVersion => r.LineOk? && r.version.Some?
  }

  /** `find`: the index of the first result the probe matches. */
  function FindFirst(rs: seq<LineResult>, p: Probe): (k: Option<nat>)
    ensures k.Some? ==> k.value < |rs| && Matches(rs[k.value], p)
  {
    if rs == [] then None
    else if Matches(rs[0], p) then Some(0)
    else match FindFirst(rs[1..], p)
      case Some(k) => Some(k + 1)
      case None => None
  }

  /** `FindFirst` finds the least matching index, and none when nothing matches. */
  lemma {:induction false} FindFirstIsFirst(rs: seq<LineResult>, p: Probe, k: nat)
    requires k < |rs| && Matches(rs[k], p)
    requires forall j :: 0 <= j < k ==> !Matches(rs[j], p)
    ensures FindFirst(rs, p) == Some(k)
  {
    if k > 0 {
      FindFirstIsFirst(rs[1..], p, k - 1);
    }
  }

  lemma {:induction false} FindFirstNone(rs: seq<LineResult>, p: Probe)
    requires forall j :: 0 <= j < |rs| ==> !Matches(rs[j], p)
    ensures FindFirst(rs, p) == None
  {
    if rs != [] {
      FindFirstNone(rs[1..], p);
    }
  }

  /** The lines' texts; read only when every line succeeded. */
  function Texts(rs: seq<LineResult>): (ts: seq<string>)
    ensures |ts| == |rs|
  {
    if rs == [] then []
    else [match rs[0] case LineOk(text, _, _) => text case LineErr(_) => ""] + Texts(rs[1..])
  }

  lemma {:induction false} TextsAt(rs: seq<LineResult>, i: nat)
    requires i < |rs| && rs[i].LineOk?
    ensures Texts(rs)[i] == rs[i].text
  {
    if i > 0 {
      TextsAt(rs[1..], i - 1);
    }
  }

  /**
   * The aggregation of `translateLines` (and of the rerun command, which
   * falls back to another version): the first failure's message, else the
   * texts with the first reported source language (else `from`), the target
   * `to` and the first reported version (else `fallback`).
   */
  function Aggregate(rs: seq<LineResult>, from: string, to: string, fallback: Version): TranslateResult {
    match FindFirst(rs, Failed)
    case Some(k) => Failure([rs[k].error])
    case None =>
      var fromLang := match FindFirst(rs, HasLang) case Some(k) => rs[k].fromLang.value case None => from;
      var version := match FindFirst(rs, HasVersion) case Some(k) => rs[k].version.value case None => fallback;
      Success(Texts(rs), Some(fromLang), Some(to), Some(version))
  }

  /** If some line fails, the result is the first failing line's message alone. */
  lemma AggregateFailure(rs: seq<LineResult>, from: string, to: string, fallback: Version, k: nat)
    requires k < |rs| && rs[k].LineErr?
    requires forall j :: 0 <= j < k ==> rs[j].LineOk?
    ensures Aggregate(rs, from, to, fallback) == Failure([rs[k].error])
  {
    FindFirstIsFirst(rs, Failed, k);
  }

  /** If every line succeeds, the result holds one text per line, in order, for the target `to`. */
  lemma AggregateSuccess(rs: seq<LineResult>, from: string, to: string, fallback: Version)
    requires forall j :: 0 <= j < |rs| ==> rs[j].LineOk?
    ensures var res := Aggregate(rs, from, to, fallback);
      && res.Success? && |res.text| == |rs| && res.toLang == Some(to)
      && (forall i :: 0 <= i < |rs| ==> res.text[i] == rs[i].text)
  {
    FindFirstNone(rs, Failed);
    forall i | 0 <= i < |rs| ensures Texts(rs)[i] == rs[i].text {
      TextsAt(rs, i);
    }
  }

  /** The source language is the first one a line reports, else `from`. */
  lemma AggregateFromLang(rs: seq<LineResult>, from: string, to: string, fallback: Version)
    requires forall j :: 0 <= j < |rs| ==> rs[j].LineOk?
    ensures var res := Aggregate(rs, from, to, fallback);
      && (forall j :: 0 <= j < |rs| ==> rs[j].fromLang.None?) ==> res.fromLang == Some(from)
    ensures forall k :: 0 <= k < |rs| && rs[k].fromLang.Some? && (forall j :: 0 <= j < k ==> rs[j].fromLang.None?) ==>
      Aggregate(rs, from, to, fallback).fromLang == rs[k].fromLang
  {
    FindFirstNone(rs, Failed);
    if forall j :: 0 <= j < |rs| ==> rs[j].fromLang.None? {
      FindFirstNone(rs, HasLang);
    }
    forall k | 0 <= k < |rs| && rs[k].fromLang.Some? && (forall j :: 0 <= j < k ==> rs[j].fromLang.None?)
      ensures Aggregate(rs, from, to, fallback).fromLang == rs[k].fromLang
    {
      FindFirstIsFirst(rs, HasLang, k);
    }
  }

  /** The version is the first one a line reports, else `fallback`. */
  lemma AggregateVersion(rs: seq<LineResult>, from: string, to: string, fallback: Version)
    requires forall j :: 0 <= j < |rs| ==> rs[j].LineOk?
    ensures var res := Aggregate(rs, from, to, fallback);
      && (forall j :: 0 <= j < |rs| ==> rs[j].version.None?) ==> res.version == Some(fallback)
    ensures forall k :: 0 <= k < |rs| && rs[k].version.Some? && (forall j :: 0 <= j < k ==> rs[j].version.None?) ==>
      Aggregate(rs, from, to, fallback).version == rs[k].version
  {
    FindFirstNone(rs, Failed);
    if forall j :: 0 <= j < |rs| ==> rs[j].version.None? {
      FindFirstNone(rs, HasVersion);
    }
    forall k | 0 <= k < |rs| && rs[k].version.Some? && (forall j :: 0 <= j < k ==> rs[j].version.None?)
      ensures Aggregate(rs, from, to, fallback).version == rs[k].version
    {
      FindFirstIsFirst(rs, HasVersion, k);
    }
  }

  // ---- translateLines --------------------------------------------------------

  /** What the backend answered: for the whole text, and for each line. */
  datatype Answers = Answers(whole: ApiResult, perLine: seq<ApiResult>)

  /** A single line is translated whole and wrapped in a one-element list. */
  function SingleLine(answer: ApiResult, from: string, to: string): (res: TranslateResult)
    ensures |res.text| == 1 && res.text[0] == answer.text
    ensures res.Success? <==> answer.ApiSuccess?
    ensures res.Success? ==>
      res.fromLang == Some(answer.fromLang.GetOr(from)) && res.toLang == Some(answer.toLang.GetOr(to)) && res.version == answer.version
  {
    match answer
    case ApiSuccess(text, fromLang, toLang, version) => Success([text], Some(fromLang.GetOr(from)), Some(toLang.GetOr(to)), version)
    case ApiError(text) => Failure([text])
  }

  /** `translateLines`: one backend call for at most one line, else one per non-blank line. */
  function TranslateLines(lines: seq<string>, from: string, to: string, answers: Answers): TranslateResult
    requires |answers.perLine| == |lines|
  {
    if |lines| <= 1 then SingleLine(answers.whole, from, to)
    else Aggregate(LineResults(lines, answers.perLine), from, to, V1)
  }

  /** A success always names both languages, so a cached copy of it is complete. */
  lemma TranslateLinesLanguages(lines: seq<string>, from: string, to: string, answers: Answers)
    requires |answers.perLine| == |lines|
    ensures var res := TranslateLines(lines, from, to, answers);
      res.Success? ==> res.fromLang.Some? && res.toLang.Some? && (|lines| > 1 ==> res.toLang == Some(to) && res.version.Some?)
  {
  }

  /** Whatever the backend would answer for a blank line, the result is the same: it is never asked. */
  lemma BlankLineNotTranslated(lines: seq<string>, from: string, to: string, answers: Answers, i: nat, other: ApiResult)
    requires |answers.perLine| == |lines| && i < |lines| && Blank(lines[i])
    ensures TranslateLines(lines, from, to, Answers(answers.whole, answers.perLine[i := other]))
         == TranslateLines(lines, from, to, answers)
  {
    var changed := answers.perLine[i := other];
    assert LineResults(lines, changed) == LineResults(lines, answers.perLine) by {
      forall j | 0 <= j < |lines|
        ensures LineResults(lines, changed)[j] == LineResults(lines, answers.perLine)[j]
      {
        LineResultsAt(lines, changed, j);
        LineResultsAt(lines, answers.perLine, j);
      }
    }
  }

  /** A non-blank line that fails, after lines that all succeed, decides the result. */
  lemma FirstFailureReported(lines: seq<string>, from: string, to: string, answers: Answers, k: nat)
    requires |answers.perLine| == |lines| && |lines| > 1
    requires k < |lines| && !Blank(lines[k]) && answers.perLine[k].ApiError?
    requires forall j :: 0 <= j < k ==> Blank(lines[j]) || answers.perLine[j].ApiSuccess?
    ensures TranslateLines(lines, from, to, answers) == Failure([answers.perLine[k].text])
  {
    var rs := LineResults(lines, answers.perLine);
    LineResultsAt(lines, answers.perLine, k);
    forall j | 0 <= j < k ensures rs[j].LineOk? {
      LineResultsAt(lines, answers.perLine, j);
    }
    AggregateFailure(rs, from, to, V1, k);
  }

  /**
   * When no non-blank line fails, the result has one text per line in
   * order: `''` for a blank line, the backend's text otherwise.
   */
  lemma AllLinesTranslated(lines: seq<string>, from: string, to: string, answers: Answers)
    requires |answers.perLine| == |lines| && |lines| > 1
    requires forall j :: 0 <= j < |lines| ==> Blank(lines[j]) || answers.perLine[j].ApiSuccess?
    ensures var res := TranslateLines(lines, from, to, answers);
      && res.Success? && |res.text| == |lines| && res.toLang == Some(to)
      && forall i :: 0 <= i < |lines| ==>
           res.text[i] == if Blank(lines[i]) then "" else answers.perLine[i].text
  {
    var rs := LineResults(lines, answers.perLine);
    forall j | 0 <= j < |lines| ensures rs[j] == LineResultFor(lines[j], answers.perLine[j]) {
      LineResultsAt(lines, answers.perLine, j);
    }
    AggregateSuccess(rs, from, to, V1);
  }

  // ---- Preparing the selection ----------------------------------------------

  /** Where `slice(0, end)` stops on a list of `len` items. */
  function SliceEnd(len: nat, end: int): (r: nat)
    ensures r <= len
  {
    if end < 0 then (if len + end < 0 then 0 else len + end)
    else if end > len then len
    else end
  }

  /** The `maxLineCount` cap: more lines than the cap are cut with `slice(0, maxLineCount)`. */
  function CapLines(rawLines: seq<string>, maxLineCount: int): (r: seq<string>)
    ensures r <= rawLines
    ensures |rawLines| <= maxLineCount ==> r == rawLines
    ensures 0 <= maxLineCount < |rawLines| ==> |r| == maxLineCount
  {
    if |rawLines| > maxLineCount then rawLines[..SliceEnd(|rawLines|, maxLineCount)] else rawLines
  }

  function NormalizeEach(lines: seq<string>, opts: NormalizeOptions): (r: seq<string>)
    ensures |r| == |lines|
  {
    if lines == [] then [] else [Normalize(lines[0], opts)] + NormalizeEach(lines[1..], opts)
  }

  /** Each line normalised on its own, only with options present and `normalizeText` on. */
  function PrepareLines(lines: seq<string>, normOpts: Option<NormalizeOptions>): (r: seq<string>)
    ensures |r| == |lines|
  {
    match normOpts
    case Some(opts) => if opts.normalizeText then NormalizeEach(lines, opts) else lines
    case None => lines
  }

  lemma {:induction false} NormalizeEachAt(lines: seq<string>, opts: NormalizeOptions, i: nat)
    requires i < |lines|
    ensures NormalizeEach(lines, opts)[i] == Normalize(lines[i], opts)
  {
    if i > 0 {
      NormalizeEachAt(lines[1..], opts, i - 1);
    }
  }

  /** Each line is normalised independently of the others, and only when normalisation is on. */
  lemma PrepareLinesAt(lines: seq<string>, normOpts: Option<NormalizeOptions>, i: nat)
    requires i < |lines|
    ensures PrepareLines(lines, normOpts)[i]
      == if normOpts.Some? && normOpts.value.normalizeText then Normalize(lines[i], normOpts.value) else lines[i]
  {
    if normOpts.Some? && normOpts.value.normalizeText {
      NormalizeEachAt(lines, normOpts.value, i);
    }
  }

  /** The lines `translateSelection` translates: split on `\r?\n`, capped, then prepared. */
  function SelectionLines(input: string, maxLineCount: int, normOpts: Option<NormalizeOptions>): seq<string> {
    PrepareLines(CapLines(SplitLines(input), maxLineCount), normOpts)
  }

  /** The message shown for a failure: its lines joined, or a generic one when that is empty. */
  function FailureMessage(text: seq<string>): (m: string)
    ensures m != []
    ensures Join(text, "\n") != [] ==> m == Join(text, "\n")
  {
    var joined := Join(text, "\n");
    if joined == [] then "Translation failed." else joined
  }

  // ---- The cache step -----------------------------------------------------

  /** The cache key of a translation request: the joined lines, the languages and the version. */
  function KeyFor(lines: seq<string>, from: string, to: string, version: Version): CacheKey {
    CacheKey(Join(lines, "\n"), from, to, version)
  }

  /** A cached entry read back as a result. */
  function CachedResult(e: CacheEntry): TranslateResult {
    Success(e.text, Some(e.fromLang), Some(e.toLang), e.version)
  }

  /** The entry stored for a success, the missing languages filled in. */
  function EntryFor(res: TranslateResult, from: string, to: string): CacheEntry
    requires res.Success?
  {
    CacheEntry(res.text, res.fromLang.GetOr(from), res.toLang.GetOr(to), res.version)
  }

  /** The result of one request: the cached entry if there is one, else the backend's. */
  function Lookup(store: map<string, CacheEntry>, lines: seq<string>, from: string, to: string,
                  version: Version, answers: Answers): TranslateResult
    requires |answers.perLine| == |lines|
  {
    var k := BuildKey(KeyFor(lines, from, to, version));
    if k in store then CachedResult(store[k]) else TranslateLines(lines, from, to, answers)
  }

  /** The store after one request: a fresh success is stored, nothing else changes. */
  function Stored(store: map<string, CacheEntry>, lines: seq<string>, from: string, to: string,
                  version: Version, answers: Answers): map<string, CacheEntry>
    requires |answers.perLine| == |lines|
  {
    var k := BuildKey(KeyFor(lines, from, to, version));
    if k in store then store
    else
      var res := TranslateLines(lines, from, to, answers);
      if res.Success? then store[k := EntryFor(res, from, to)] else store
  }

  /** Asking again after a request gives the same result: a stored success reads back whole. */
  lemma LookupAgain(store: map<string, CacheEntry>, lines: seq<string>, from: string, to: string,
                    version: Version, answers: Answers)
    requires |answers.perLine| == |lines|
    ensures Lookup(Stored(store, lines, from, to, version, answers), lines, from, to, version, answers)
         == Lookup(store, lines, from, to, version, answers)
  {
    TranslateLinesLanguages(lines, from, to, answers);
  }

  /** The cache lookup, backend call and cache store both command paths share. */
  method TranslateCached(cache: Cache, lines: seq<string>, from: string, to: string,
                         version: Version, answers: Answers) returns (res: TranslateResult)
    requires |answers.perLine| == |lines|
    modifies cache
    ensures res == Lookup(old(cache.store), lines, from, to, version, answers)
    ensures cache.store == Stored(old(cache.store), lines, from, to, version, answers)
  {
    var key := KeyFor(lines, from, to, version);
    var cached := cache.Get(key);
    if cached.Some? {
      res := CachedResult(cached.value);
    } else {
      res := TranslateLines(lines, from, to, answers);
      if res.Success? {
        cache.Set(key, EntryFor(res, from, to));
      }
    }
  }

  /**
   * The single-target path of `translateSelection`: the cache step, then a
   * success is recorded in the history under its languages. `now` is the
   * clock's reading.
   */
  method TranslateSingleTarget(cache: Cache, history: History, lines: seq<string>, from: string, to: string,
                               version: Version, input: string, answers: Answers, now: int)
    returns (res: TranslateResult)
    requires |answers.perLine| == |lines|
    modifies cache, history
    ensures res == Lookup(old(cache.store), lines, from, to, version, answers)
    ensures cache.store == Stored(old(cache.store), lines, from, to, version, answers)
    ensures history.limit == old(history.limit)
    ensures history.entries == if res.Success?
      then Added(old(history.entries), HistoryEntry(input, res.text, res.fromLang.GetOr(from), res.toLang.GetOr(to), now), history.limit)
      else old(history.entries)
  {
    res := TranslateCached(cache, lines, from, to, version, answers);
    if res.Success? {
      history.Add(HistoryEntry(input, res.text, res.fromLang.GetOr(from), res.toLang.GetOr(to), now));
    }
  }

  // ---- Several targets -----------------------------------------------------

  /** How a failed target is listed: its messages joined by spaces inside `[Error: ...]`. */
  function ErrorEntry(messages: seq<string>): string {
    "[Error: " + Join(messages, " ") + "]"
  }

  /** One target's entry: its lines, or its error entry. */
  function TargetEntry(target: string, res: TranslateResult): (e: MultiTargetResult)
    ensures e.to == target && |e.text| == if res.Success? then |res.text| else 1
  {
    match res
    case Success(text, _, _, _) => MultiTargetResult(target, text)
    case Failure(messages) => MultiTargetResult(target, [ErrorEntry(messages)])
  }

  predicate AnswersFit(lines: seq<string>, answers: seq<Answers>) {
    forall i :: 0 <= i < |answers| ==> |answers[i].perLine| == |lines|
  }

  /** The results of the targets in order, each looked up in the cache as the earlier ones left it. */
  function MultiResults(store: map<string, CacheEntry>, lines: seq<string>, from: string, targets: seq<string>,
                        version: Version, answers: seq<Answers>): (rs: seq<TranslateResult>)
    requires |answers| == |targets| && AnswersFit(lines, answers)
    ensures |rs| == |targets|
    decreases |targets|
  {
    if targets == [] then []
    else [Lookup(store, lines, from, targets[0], version, answers[0])]
         + MultiResults(Stored(store, lines, from, targets[0], version, answers[0]), lines, from, targets[1..], version, answers[1..])
  }

  /** The store after all the targets. */
  function MultiStore(store: map<string, CacheEntry>, lines: seq<string>, from: string, targets: seq<string>,
                      version: Version, answers: seq<Answers>): map<string, CacheEntry>
    requires |answers| == |targets| && AnswersFit(lines, answers)
    decreases |targets|
  {
    if targets == [] then store
    else MultiStore(Stored(store, lines, from, targets[0], version, answers[0]), lines, from, targets[1..], version, answers[1..])
  }

  /** The entries for the targets, in order. */
  function Entries(targets: seq<string>, rs: seq<TranslateResult>): (es: seq<MultiTargetResult>)
    requires |rs| == |targets|
    ensures |es| == |targets|
  {
    if targets == [] then []
    else Entries(targets[..|targets| - 1], rs[..|rs| - 1]) + [TargetEntry(targets[|targets| - 1], rs[|rs| - 1])]
  }

  lemma {:induction false} EntriesAt(targets: seq<string>, rs: seq<TranslateResult>, i: nat)
    requires |rs| == |targets| && i < |targets|
    ensures Entries(targets, rs)[i] == TargetEntry(targets[i], rs[i])
  {
    if i < |targets| - 1 {
      EntriesAt(targets[..|targets| - 1], rs[..|rs| - 1], i);
    }
  }

  /** The source language after the loop: the last successful target's (else `from`), despite its name. */
  function LastFromLang(rs: seq<TranslateResult>, from: string): string {
    if rs == [] then from
    else if rs[|rs| - 1].Success? then rs[|rs| - 1].fromLang.GetOr(from)
    else LastFromLang(rs[..|rs| - 1], from)
  }

  /** The version after the loop: the last successful target's, else the configured one. */
  function LastVersion(rs: seq<TranslateResult>, configured: Version): Option<Version> {
    if rs == [] then Some(configured)
    else if rs[|rs| - 1].Success? then rs[|rs| - 1].version
    else LastVersion(rs[..|rs| - 1], configured)
  }

  /** The history entries the successful targets add, in order. */
  function SuccessEntries(input: string, from: string, targets: seq<string>, rs: seq<TranslateResult>, now: int): seq<HistoryEntry>
    requires |rs| == |targets|
  {
    if targets == [] then []
    else
      var prior := SuccessEntries(input, from, targets[..|targets| - 1], rs[..|rs| - 1], now);
      var res := rs[|rs| - 1];
      if res.Success? then prior + [HistoryEntry(input, res.text, res.fromLang.GetOr(from), targets[|targets| - 1], now)]
      else prior
  }

  /**
   * `firstFromLang` and `firstVersion` end as the last successful target's
   * values; with no success they keep `from` and the configured version.
   */
  lemma {:induction false} LastSuccessWins(rs: seq<TranslateResult>, from: string, configured: Version, k: nat)
    requires k < |rs| && rs[k].Success?
    requires forall j :: k < j < |rs| ==> rs[j].Failure?
    ensures LastFromLang(rs, from) == rs[k].fromLang.GetOr(from)
    ensures LastVersion(rs, configured) == rs[k].version
    decreases |rs|
  {
    if k < |rs| - 1 {
      LastSuccessWins(rs[..|rs| - 1], from, configured, k);
    }
  }

  lemma {:induction false} NoSuccessKeepsDefaults(rs: seq<TranslateResult>, from: string, configured: Version)
    requires forall j :: 0 <= j < |rs| ==> rs[j].Failure?
    ensures LastFromLang(rs, from) == from
    ensures LastVersion(rs, configured) == Some(configured)
    decreases |rs|
  {
    if rs != [] {
      NoSuccessKeepsDefaults(rs[..|rs| - 1], from, configured);
    }
  }

  lemma {:induction false} MultiStep(store: map<string, CacheEntry>, lines: seq<string>, from: string, targets: seq<string>,
                                     version: Version, answers: seq<Answers>, i: nat, rs: seq<TranslateResult>)
    requires |answers| == |targets| && AnswersFit(lines, answers) && i < |targets|
    ensures var next := Stored(store, lines, from, targets[i], version, answers[i]);
      && rs + MultiResults(store, lines, from, targets[i..], version, answers[i..])
         == (rs + [Lookup(store, lines, from, targets[i], version, answers[i])])
            + MultiResults(next, lines, from, targets[i + 1..], version, answers[i + 1..])
      && MultiStore(store, lines, from, targets[i..], version, answers[i..])
         == MultiStore(next, lines, from, targets[i + 1..], version, answers[i + 1..])
  {
    assert targets[i..][1..] == targets[i + 1..];
    assert answers[i..][1..] == answers[i + 1..];
  }

  /** One more target's entry, source language, version and history entries. */
  lemma OneMoreTarget(input: string, from: string, targets: seq<string>, rs: seq<TranslateResult>,
                      res: TranslateResult, configured: Version, now: int, i: nat)
    requires i < |targets| && |rs| == i
    ensures Entries(targets[..i + 1], rs + [res]) == Entries(targets[..i], rs) + [TargetEntry(targets[i], res)]
    ensures LastFromLang(rs + [res], from) == if res.Success? then res.fromLang.GetOr(from) else LastFromLang(rs, from)
    ensures LastVersion(rs + [res], configured) == if res.Success? then res.version else LastVersion(rs, configured)
    ensures SuccessEntries(input, from, targets[..i + 1], rs + [res], now)
         == SuccessEntries(input, from, targets[..i], rs, now)
            + (if res.Success? then [HistoryEntry(input, res.text, res.fromLang.GetOr(from), targets[i], now)] else [])
  {
    assert targets[..i + 1][..i] == targets[..i];
    assert (rs + [res])[..i] == rs;
  }

  /**
   * `runMultiTargetTranslation`'s loop: one entry per target, in order, a
   * failure listed as its error entry; each success stored in the cache and
   * added to the history; the source language and version of the last
   * success kept.
   */
  method RunMultiTarget(cache: Cache, history: History, lines: seq<string>, from: string, targets: seq<string>,
                        version: Version, input: string, answers: seq<Answers>, now: int)
    returns (multiTarget: seq<MultiTargetResult>, firstFromLang: string, firstVersion: Option<Version>)
    requires |answers| == |targets| && AnswersFit(lines, answers)
    modifies cache, history
    ensures var rs := MultiResults(old(cache.store), lines, from, targets, version, answers);
      && multiTarget == Entries(targets, rs)
      && firstFromLang == LastFromLang(rs, from)
      && firstVersion == LastVersion(rs, version)
      && history.entries == AddedAll(old(history.entries), SuccessEntries(input, from, targets, rs, now), history.limit)
    ensures cache.store == MultiStore(old(cache.store), lines, from, targets, version, answers)
    ensures history.limit == old(history.limit)
  {
    multiTarget := [];
    firstFromLang := from;
    firstVersion := Some(version);
    ghost var rs: seq<TranslateResult> := [];
    ghost var all := MultiResults(old(cache.store), lines, from, targets, version, answers);
    ghost var final := MultiStore(old(cache.store), lines, from, targets, version, answers);
    var i := 0;
    while i < |targets|
      invariant 0 <= i <= |targets| && |rs| == i
      invariant rs + MultiResults(cache.store, lines, from, targets[i..], version, answers[i..]) == all
      invariant MultiStore(cache.store, lines, from, targets[i..], version, answers[i..]) == final
      invariant multiTarget == Entries(targets[..i], rs)
      invariant firstFromLang == LastFromLang(rs, from) && firstVersion == LastVersion(rs, version)
      invariant history.entries == AddedAll(old(history.entries), SuccessEntries(input, from, targets[..i], rs, now), history.limit)
      invariant history.limit == old(history.limit)
    {
      var target := targets[i];
      MultiStep(cache.store, lines, from, targets, version, answers, i, rs);
      var res := TranslateCached(cache, lines, from, target, version, answers[i]);
      OneMoreTarget(input, from, targets, rs, res, version, now, i);
      ghost var entries := SuccessEntries(input, from, targets[..i], rs, now);
      if res.Success? {
        multiTarget := multiTarget + [MultiTargetResult(target, res.text)];
        firstFromLang := res.fromLang.GetOr(from);
        firstVersion := res.version;
        var entry := HistoryEntry(input, res.text, res.fromLang.GetOr(from), target, now);
        history.Add(entry);
        AddedAllSnoc(old(history.entries), entries, entry, history.limit);
      } else {
        multiTarget := multiTarget + [MultiTargetResult(target, [ErrorEntry(res.text)])];
        assert entries + [] == entries;
      }
      rs := rs + [res];
      i := i + 1;
    }
    assert targets[..i] == targets;
    assert rs == all by {
      assert targets[i..] == [];
      assert rs + [] == rs;
    }
  }

  /**
   * The context the panel gets after several targets: the first target's
   * entry as the translation, the first target as the target language, and
   * every entry as `multiTarget`.
   */
  function MultiContext(multiTarget: seq<MultiTargetResult>, targets: seq<string>, targetLanguage: string,
                        fromLang: string, version: Option<Version>, normalized: bool,
                        range: HoverState.Range, sourceWasAuto: bool): (ctx: RenderContext)
    ensures multiTarget != [] ==> ctx.translatedText == multiTarget[0].text
    ensures multiTarget == [] ==> ctx.translatedText == []
    ensures ctx.to == if targets != [] then targets[0] else targetLanguage
    ensures ctx.multiTarget == Some(multiTarget) && ctx.from == fromLang && ctx.version == version
  {
    RenderContext(if multiTarget != [] then multiTarget[0].text else [], fromLang,
                  if targets != [] then targets[0] else targetLanguage,
                  normalized, range, version, sourceWasAuto, Some(multiTarget))
  }

  /** After the loop, the panel's main text is the first target's translation or its error entry. */
  lemma MultiContextShowsFirstTarget(store: map<string, CacheEntry>, lines: seq<string>, from: string,
                                     targets: seq<string>, version: Version, answers: seq<Answers>)
    requires |answers| == |targets| && AnswersFit(lines, answers) && targets != []
    ensures var rs := MultiResults(store, lines, from, targets, version, answers);
      var es := Entries(targets, rs);
      es[0] == TargetEntry(targets[0], rs[0])
      && rs[0] == Lookup(store, lines, from, targets[0], version, answers[0])
  {
    var rs := MultiResults(store, lines, from, targets, version, answers);
    EntriesAt(targets, rs, 0);
  }
}
