/** The records the translator, the history and the commands pass around. */
module Types {
  import opened Wrappers

  /** Which Google backend answered: the JSON endpoint or the HTML page. */
  datatype Version = V1 | V2 {
    function Name(): string {
      match this
      case V1 => "v1"
      case V2 => "v2"
    }
  }

  /**
   * What one call of a backend (`translate` or `translateV2`) answers: the
   * translated text with the detected source language, the target language
   * and the backend version when it reports them, or an error message. The
   * first backend reports no version.
   */
  datatype ApiResult =
    | ApiSuccess(text: string, fromLang: Option<string>, toLang: Option<string>, version: Option<Version>)
    | ApiError(text: string)

  /**
   * A command's translation of a whole selection: the translated lines with
   * the languages and the version, or the error message lines.
   */
  datatype TranslateResult =
    | Success(text: seq<string>, fromLang: Option<string>, toLang: Option<string>, version: Option<Version>)
    | Failure(text: seq<string>)

  /** One remembered translation; the timestamp is milliseconds since the epoch. */
  datatype HistoryEntry = HistoryEntry(
    sourceText: string, translatedText: seq<string>, from: string, to: string, timestamp: int)

  const ErrLangNotSupported: string := "This language is not supported."
  const ErrOccurred: string := "An error occurred."
}
