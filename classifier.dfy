/**
 * The keyword availability check of `check_product` (monitor.py), from the
 * moment the page has been fetched and the selector evaluated. The HTTP
 * request and the CSS selector engine are outside the model: their combined
 * outcome is a `FetchOutcome`.
 */
module Classifier {
  import opened Wrappers
  import opened Text

  /** What fetching the page and evaluating the selector produced: an
      exception (its text), or the text of the first matching element if any. */
  datatype FetchOutcome = FetchFailed(reason: string) | Fetched(element: Option<string>)

  /** The `(is_available, status)` pair `check_product` returns. */
  datatype CheckResult = CheckResult(available: bool, message: string)

  /** How much of the element text an unavailable message quotes. */
  const SnippetLength: nat := 50

  /** The element text as it is searched: stripped, then lower-cased. */
  function Normalize(raw: string): string {
    Lower(Strip(raw))
  }

  /** `keyword.lower() in text` */
  predicate KeywordMatches(keyword: string, text: string) {
    Contains(text, Lower(keyword))
  }

  /** The loop over `keywords` with its early return: the index of the first
      keyword that matches, or `None` when none does. */
  function FirstMatch(keywords: seq<string>, text: string): (r: Option<nat>)
    ensures r.Some? ==> r.value < |keywords| && KeywordMatches(keywords[r.value], text)
    ensures r.Some? ==> forall j :: 0 <= j < r.value ==> !KeywordMatches(keywords[j], text)
    ensures r.None? <==> forall j :: 0 <= j < |keywords| ==> !KeywordMatches(keywords[j], text)
  {
    if |keywords| == 0 then None
    else if KeywordMatches(keywords[0], text) then Some(0)
    else match FirstMatch(keywords[1..], text)
      case None => None
      case Some(i) => Some(i + 1)
  }

  /** The verdict on an element's text: available with the first matching
      keyword as it was configured, otherwise unavailable quoting the start
      of the searched text. */
  function ClassifyText(raw: string, keywords: seq<string>): (r: CheckResult)
    ensures r.available <==> exists k :: k in keywords && IsSubstring(Lower(k), Normalize(raw))
    ensures !r.available ==> |r.message| <= 16 + SnippetLength + 3
  {
    var text := Normalize(raw);
    match FirstMatch(keywords, text)
    case Some(i) =>
      assert keywords[i] in keywords;
      CheckResult(true, "Found: " + keywords[i])
    case None => CheckResult(false, "Current status: " + Take(text, SnippetLength) + "...")
  }

  /** `check_product` once the page has been fetched: an exception becomes an
      unavailable "Error: " result, a missing element an unavailable
      "Element not found" result; only an element's text is searched. */
  function Classify(outcome: FetchOutcome, keywords: seq<string>): (r: CheckResult)
    ensures r.available ==> outcome.Fetched? && outcome.element.Some?
  {
    match outcome
    case FetchFailed(reason) => CheckResult(false, "Error: " + reason)
    case Fetched(None) => CheckResult(false, "Element not found")
    case Fetched(Some(raw)) => ClassifyText(raw, keywords)
  }

  /** A missing element gives exactly `(False, "Element not found")`,
      whatever the keywords. */
  lemma ElementAbsent(keywords: seq<string>, others: seq<string>)
    ensures Classify(Fetched(None), keywords) == CheckResult(false, "Element not found")
    ensures Classify(Fetched(None), keywords) == Classify(Fetched(None), others)
  {
  }

  /** A fetch or parse failure is unavailable, and its message is "Error: "
      followed by the exception text. */
  lemma FetchFailureIsError(reason: string, keywords: seq<string>)
    ensures !Classify(FetchFailed(reason), keywords).available
    ensures Classify(FetchFailed(reason), keywords).message[..7] == "Error: "
    ensures Classify(FetchFailed(reason), keywords).message[7..] == reason
  {
  }

  /** Available exactly when the element exists and some keyword, lower-cased,
      occurs in its stripped and lower-cased text. */
  lemma AvailableIff(outcome: FetchOutcome, keywords: seq<string>)
    ensures Classify(outcome, keywords).available <==>
      outcome.Fetched? && outcome.element.Some? &&
      exists k :: k in keywords && IsSubstring(Lower(k), Normalize(outcome.element.value))
  {
  }

  /** When available, the message names the first keyword in list order that
      matches, as it was configured (not lower-cased). */
  lemma FoundNamesFirstKeyword(raw: string, keywords: seq<string>)
    requires Classify(Fetched(Some(raw)), keywords).available
    ensures exists i :: (0 <= i < |keywords| &&
      Classify(Fetched(Some(raw)), keywords).message == "Found: " + keywords[i] &&
      KeywordMatches(keywords[i], Normalize(raw)) &&
      forall j :: 0 <= j < i ==> !KeywordMatches(keywords[j], Normalize(raw)))
  {
  }

  lemma {:induction false} FirstMatchIgnoresRest(keywords: seq<string>, rest: seq<string>, text: string)
    requires FirstMatch(keywords, text).Some?
    ensures FirstMatch(keywords + rest, text) == FirstMatch(keywords, text)
  {
    if !KeywordMatches(keywords[0], text) {
      assert (keywords + rest)[1..] == keywords[1..] + rest;
      FirstMatchIgnoresRest(keywords[1..], rest, text);
    }
  }

  /** Keywords after the first match are never examined: appending any
      keywords to the list changes nothing. */
  lemma LaterKeywordsIgnored(outcome: FetchOutcome, keywords: seq<string>, rest: seq<string>)
    requires Classify(outcome, keywords).available
    ensures Classify(outcome, keywords + rest) == Classify(outcome, keywords)
  {
    var text := Normalize(outcome.element.value);
    FirstMatchIgnoresRest(keywords, rest, text);
    var i := FirstMatch(keywords, text).value;
    assert (keywords + rest)[i] == keywords[i];
  }

  /** When no keyword matches, the message quotes at most the first 50
      characters of the searched text. */
  lemma UnmatchedQuotesSnippet(raw: string, keywords: seq<string>)
    requires !Classify(Fetched(Some(raw)), keywords).available
    ensures forall k :: k in keywords ==> !IsSubstring(Lower(k), Normalize(raw))
    ensures Classify(Fetched(Some(raw)), keywords).message ==
      "Current status: " + Take(Normalize(raw), SnippetLength) + "..."
    ensures |Classify(Fetched(Some(raw)), keywords).message| <= 16 + SnippetLength + 3
  {
  }

  /** The check is case-insensitive in the element text: two texts that agree
      up to ASCII case get the same result. */
  lemma CaseInsensitiveText(raw: string, other: string, keywords: seq<string>)
    requires Lower(raw) == Lower(other)
    ensures Classify(Fetched(Some(raw)), keywords) == Classify(Fetched(Some(other)), keywords)
  {
    StripLowerCommute(raw);
    StripLowerCommute(other);
    LowerIdempotent(Strip(raw));
    LowerIdempotent(Strip(other));
    assert Normalize(raw) == Strip(Lower(raw));
    assert Normalize(other) == Strip(Lower(other));
  }

  /** The check is case-insensitive in the keywords: lists that agree up to
      ASCII case find availability in the same texts, at the same position. */
  lemma CaseInsensitiveKeywords(keywords: seq<string>, others: seq<string>, text: string)
    requires |keywords| == |others|
    requires forall i :: 0 <= i < |keywords| ==> Lower(keywords[i]) == Lower(others[i])
    ensures FirstMatch(keywords, text) == FirstMatch(others, text)
  {
  }

  /** A worked case: the text "Add to Bag" and the keyword "add to bag". */
  lemma AddToBagIsAvailable()
    ensures Classify(Fetched(Some("Add to Bag")), ["add to bag"]) == CheckResult(true, "Found: add to bag")
  {
    var raw, keyword := "Add to Bag", "add to bag";
    assert LeadingSpaces(raw) == 0 && TrailingSpaces(raw[0..]) == 0;
    assert Strip(raw) == raw;
    assert Lower(raw) == keyword by {
      assert forall i :: 0 <= i < |raw| ==> Lower(raw)[i] == keyword[i];
    }
    assert Lower(keyword) == keyword by {
      assert forall i :: 0 <= i < |keyword| ==> Lower(keyword)[i] == keyword[i];
    }
    assert IsPrefix(Lower(keyword), Normalize(raw));
    assert FirstMatch([keyword], Normalize(raw)) == Some(0);
  }
}
