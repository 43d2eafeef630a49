/** `correct_text_with_languagetool`: the request sent to the LanguageTool
    service and what the corrector makes of the answer. The service itself
    is a parameter: a function from the request to its outcome. */
module Checker {
  import opened Corrections
  import opened Splicing

  datatype Option<T> = None | Some(value: T)

  /** The form fields posted to the service. */
  datatype Request = Request(
    text: string,
    language: string,
    level: string,
    enabledCategories: string,
    enabledRules: string,
    disabledCategories: string)

  /** The answer: the HTTP status and, when the JSON body has one, its `matches` list. */
  datatype Response = Response(statusCode: int, matches: Option<seq<Match>>)

  /** A request either gets a response or raises a request exception. */
  datatype Outcome = Responded(response: Response) | RequestFailed

  const EnabledRules: string :=
    "WHITESPACE_RULE,EN_UNPAIRED_BRACKETS,UPPERCASE_SENTENCE_START,WORDINESS,REDUNDANCY,MISSING_COMMA,"
    + "COMMA_PARENTHESIS_WHITESPACE,DASH_RULE,EN_QUOTES,AGREEMENT_SENT_START,SENTENCE_FRAGMENT,"
    + "MULTIPLICATION_SIGN,PASSIVE_VOICE,EXTRA_WHITESPACE,COMMA_BEFORE_CONJUNCTION,HYPHENATION_RULES,"
    + "ITS_IT_IS,DUPLICATE_WORD,NO_SPACE_BEFORE_PUNCTUATION"

  /** `language_codes.get(language, "en-US")`: four languages pass through,
      English and every unknown language become `"en-US"`. */
  function LanguageCode(language: string): (code: string)
    ensures code in {"en-US", "es", "fr", "de", "pt"}
    ensures code == language <==> language in {"es", "fr", "de", "pt", "en-US"}
    ensures language !in {"es", "fr", "de", "pt"} ==> code == "en-US"
  {
    var codes := map["en" := "en-US", "es" := "es", "fr" := "fr", "de" := "de", "pt" := "pt"];
    if language in codes then codes[language] else "en-US"
  }

  /** The form posted by `correct_text_with_languagetool`: the text as given,
      the mapped language code and the fixed strictness, category and rule settings. */
  function BuildRequest(text: string, language: string): (r: Request)
    ensures r.text == text && r.language in {"en-US", "es", "fr", "de", "pt"}
  {
    Request(text, LanguageCode(language), "picky", "grammar,style,typos", EnabledRules, "COLLOQUIALISMS")
  }

  /** The matches of a response; a body without `matches` counts as none. */
  function MatchesOf(r: Response): seq<Match> {
    match r.matches
    case Some(ms) => ms
    case None => []
  }

  /** The answer was usable: a response with status 200. */
  predicate Succeeded(outcome: Outcome) {
    outcome.Responded? && outcome.response.statusCode == 200
  }

  /** What `correct_text_with_languagetool` returns for `text` when the service answers `outcome`. */
  function CorrectedOrOriginal(text: string, outcome: Outcome): string {
    if Succeeded(outcome) then Corrected(text, MatchesOf(outcome.response)) else text
  }

  method CorrectTextWithLanguageTool(text: string, language: string, checker: Request -> Outcome)
    returns (correctedText: string)
    ensures correctedText == CorrectedOrOriginal(text, checker(BuildRequest(text, language)))
    ensures !Succeeded(checker(BuildRequest(text, language))) ==> correctedText == text
  {
    var outcome := checker(BuildRequest(text, language));
    match outcome
    case RequestFailed =>
      correctedText := text;
    case Responded(response) =>
      if response.statusCode == 200 {
        var matches := MatchesOf(response);
        correctedText := ApplyCorrections(text, matches);
      } else {
        correctedText := text;
      }
  }

  /** Without a usable match in a successful answer, or without a successful
      answer at all, the text comes back as it was sent. */
  lemma UncorrectedTextReturned(text: string, outcome: Outcome)
    requires Succeeded(outcome) ==> forall m :: m in MatchesOf(outcome.response) ==> !Usable(m)
    ensures CorrectedOrOriginal(text, outcome) == text
  {
    if Succeeded(outcome) {
      NoUsableMatchIsIdentity(text, MatchesOf(outcome.response));
    }
  }
}
