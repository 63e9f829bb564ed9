# Product availability monitor — Dafny model

This project models the decision logic of a product availability monitor.
The monitor fetches each configured product page. It finds one element by
CSS selector and decides whether the product is available by looking for
configured keywords in that element's text. It records each product's
availability in a status file. It emails a notification when a product goes
from "not available" to "available" between two runs.

The network, the HTML parser, the mail transport and the file system are
replaced by plain input values:

- `Classifier.FetchOutcome` is what fetching the page and evaluating the
  selector produced: an exception text, or the matched element's text if
  there was one.
- `Notifier.Environment` is the process environment (`EMAIL_ADDRESS`,
  `EMAIL_PASSWORD`, `TO_EMAIL`). The SMTP exchange is reduced to a boolean
  `delivered`, which is false when it would raise.
- `StatusStore.StatusFile` is what `status.json` holds: missing, unreadable,
  or a key-to-boolean map. `StatusStore.SaveOutcome` says how writing it
  ended: written, failed to open, or failed after opening.
- `Monitor.RunMonitor` is the loop of `main`. It is a method with a loop and
  loop invariants. It returns the in-memory status map, the file after
  saving, the indices of the products a notification was attempted for, and
  the number of notifications sent.

Modules:

- `Text`: Python's `lower()`, `strip()`, `s[:n]` and `in`, restricted to ASCII.
- `Classifier`: the keyword check at the end of `check_product`.
- `Notifier`: the credential guard of `send_email`.
- `StatusStore`: `load_previous_status` and `save_status` as functions on values.
- `Monitor`: the product list and the run loop, with the cross-run properties.

Notes on how monitor.py behaves, which the model keeps:

- The element text is stripped before it is lower-cased.
- The absent-element message is `"Element not found"`, with a capital E.
- The "Found: " message quotes the keyword as configured, not lower-cased.
- `os.environ.get('TO_EMAIL', sender)` falls back to the sender only when
  `TO_EMAIL` is unset. A `TO_EMAIL` set to the empty string is kept.
- `save_status` opens `status.json` with mode `'w'`, which empties it first.
  A write that fails after the open leaves a file that the next load reads
  as `{}`, so the next run notifies every available product again.
- Notifying at most once per product and transition holds only when product
  keys are distinct. Products are keyed by `name + "-" + url`. Two products
  with the same key both read the previous status, and the later one
  overwrites the saved value. A repeated run is quiet when products that
  share a key agree on availability. It is quiet exactly when every product
  found available has its key saved as available
  (`Monitor.RepeatedRunQuietIff`). `Monitor.DuplicateKeyNotifiesAgain` shows
  two products sharing a key whose disagreement makes the repeated run
  notify again. Different name and URL pairs can
  share a key (`Monitor.KeysCanCollide`). The shipped product list has
  distinct keys (`Monitor.ConfiguredKeysDistinct`).

## Model

| member | source | states |
|---|---|---|
| `Text.Lower` | monitor.py:33 | `lower()` keeps the length, turns each ASCII capital into the small letter at the same place in the alphabet, changes no other character, and leaves no capital |
| `Text.LowerIdempotent` | monitor.py:33 | lower-casing twice is the same as lower-casing once |
| `Text.LeadingSpaces` | monitor.py:33 | the whitespace `strip()` removes at the front: all of it is whitespace and the next character is not |
| `Text.TrailingSpaces` | monitor.py:33 | the whitespace `strip()` removes at the back: all of it is whitespace and the character before it is not |
| `Text.Strip` | monitor.py:33 | `strip()` gives the slice right after the leading whitespace; everything after the slice is whitespace; the slice neither starts nor ends with whitespace |
| `Text.StripLowerCommute` | monitor.py:33 | stripping and lower-casing can be done in either order |
| `Text.Take` | monitor.py:43 | `text[:50]` is a prefix of the text, of length 50 or the whole text when shorter |
| `Text.Contains` | monitor.py:38 | `needle in text` holds exactly when the needle occurs at some position of the text; the empty needle always does |
| `Text.OccursInTail` | monitor.py:38 | past a start position that does not match, the needle occurs in the text exactly when it occurs in the text without its first character |
| `Classifier.FirstMatch` | monitor.py:37-41 | the keyword loop returns the index of a matching keyword with no earlier keyword matching, or nothing exactly when no keyword matches |
| `Classifier.ClassifyText` | monitor.py:33-43 | the verdict on an element's text is available exactly when some lower-cased keyword occurs in the stripped, lower-cased text; an unavailable message is at most 69 characters |
| `Classifier.Classify` | monitor.py:29-47 | a result is available only when the page was fetched and the element exists |
| `Classifier.ElementAbsent` | monitor.py:29-31 | a missing element gives exactly `(False, "Element not found")`, whatever the keywords |
| `Classifier.FetchFailureIsError` | monitor.py:45-47 | a fetch or parse exception gives an unavailable result whose message is "Error: " followed by the exception text |
| `Classifier.AvailableIff` | monitor.py:29-43 | available exactly when the element exists and some keyword, lower-cased, occurs in the stripped, lower-cased element text |
| `Classifier.FoundNamesFirstKeyword` | monitor.py:37-40 | when available, the message is "Found: " and the first keyword in list order that matches |
| `Classifier.FirstMatchIgnoresRest` | monitor.py:37-40 | once a keyword matches, keywords appended after the list do not change the match |
| `Classifier.LaterKeywordsIgnored` | monitor.py:37-40 | keywords after the first match are never examined: appending keywords leaves an available result unchanged |
| `Classifier.UnmatchedQuotesSnippet` | monitor.py:42-43 | when nothing matches, no keyword occurs in the text and the message quotes at most its first 50 characters |
| `Classifier.CaseInsensitiveText` | monitor.py:33-38 | element texts that agree up to case get the same result |
| `Classifier.CaseInsensitiveKeywords` | monitor.py:37-38 | keyword lists that agree up to case match at the same position |
| `Classifier.AddToBagIsAvailable` | monitor.py:33-40 | the text "Add to Bag" with the keyword "add to bag" is available, with message "Found: add to bag" |
| `Notifier.Credentials` | monitor.py:52-58 | credentials exist exactly when sender and password are set and not empty; the recipient is `TO_EMAIL` when set, otherwise the sender |
| `Notifier.SendEmail` | monitor.py:49-79 | a send succeeds only with credentials and a delivered message, and always succeeds when both hold |
| `Notifier.MissingCredentialsNeverSend` | monitor.py:56-58 | missing or empty credentials make the send fail, whatever the transport would do |
| `StatusStore.Load` | monitor.py:81-89 | a stored map loads as itself; a missing or unreadable file loads as the empty map |
| `StatusStore.Save` | monitor.py:91-97 | a successful save stores the map; a failed open leaves the file as it was; a write that fails after the open leaves a file that does not load as a map |
| `StatusStore.SaveLoadRoundTrip` | monitor.py:81-97 | loading after a successful save yields the saved map |
| `StatusStore.InterruptedSaveLosesStatus` | monitor.py:84-97 | after a write that fails past the open, the next load yields `{}` |
| `Monitor.Key` | monitor.py:135 | the key is the product's name, a dash, then its URL; the selector and keywords play no part |
| `Monitor.KeysCanCollide` | monitor.py:135 | two products with different names and URLs can share a key |
| `Monitor.LoopStep` | monitor.py:126-141 | one loop iteration records the product's result under its key, and attempts (and possibly sends) one notification exactly when the product became available |
| `Monitor.RunMonitor` | monitor.py:104-168 | the loop's status map, notification attempts and sent count are those of the run specification; the saved file is the status map; sent is at most attempts, which are at most the products; nothing is sent without credentials |
| `Monitor.StatusUpToContents` | monitor.py:135-136 | the status map's keys are exactly the checked products' keys, with nothing carried over from the previous status; each key holds the availability of the last product with that key |
| `Monitor.AttemptsAreTransitions` | monitor.py:139-165 | a notification is attempted for a product exactly when it is available and its previous status (false when absent) is not; attempts are in product order, at most one per product; none at all exactly when no product became available |
| `Monitor.SentBounds` | monitor.py:159-160 | sent is at most attempts, which are at most the products; sent is zero without credentials, and equals attempts when every send is delivered |
| `Monitor.ConfiguredKeysDistinct` | monitor.py:108-122 | the two shipped products have distinct keys, so their results are consistent whatever the pages say |
| `Monitor.StatusUnderConsistentKeys` | monitor.py:135-136 | when products that share a key agree, the status map holds every product's own availability |
| `Monitor.RepeatedRunIsQuiet` | monitor.py:135-141 | when products that share a key agree on availability, a run repeated with the map the last run produced, and the same results, attempts nothing |
| `Monitor.RepeatedRunQuietIff` | monitor.py:135-141 | a run repeated with the map the last run produced, and the same results, attempts nothing exactly when every product found available has its key saved as available |
| `Monitor.SecondRunSendsNothing` | monitor.py:104-168 | when products that share a key agree on availability, after a run whose save succeeded, a run that sees the same pages attempts and sends nothing |
| `Monitor.DuplicateKeyNotifiesAgain` | monitor.py:135-141 | two products sharing a key, available then unavailable, save false, so the repeated run notifies again for the first |
| `Monitor.FailOpenOnLostStatus` | monitor.py:139-141 | with a missing or unreadable status file (also what an interrupted save leaves), every available product gets a notification attempt |
| `Monitor.BecameAvailableScenario` | monitor.py:129-141 | previous status `{"P-url": false}` and an available product P at `url`: one attempt, and `{"P-url": true}` is the new status |

## Left out

- The HTTP request (headers, 15-second timeout, `raise_for_status`) and the
  HTML parser's selector engine are network I/O and a foreign library. Their
  combined outcome is an input, `FetchOutcome`; the selector is carried but
  never interpreted.
- Any fetch or parse exception is one case, `FetchFailed(reason)`. The
  exception text is an opaque string.
- The SMTP exchange (STARTTLS, login, send, quit on port 587) and the
  building of the MIME message are network I/O. A send's outcome past the
  credential guard is the input `delivered`, given per product in
  `transport`.
- The email subject and body text are left out. They are presentational and
  the body holds the current time.
- `status.json` and its JSON encoding are left out; the file is modelled by
  the value it holds. A parseable file holding something other than a
  string-to-boolean object (a list, or non-boolean values) is not modelled.
- The `datetime.now()` calls and every `print` are left out. They are clock
  output and console output.
- `Text.Lower` and `Text.Strip` cover ASCII only. Capitals outside ASCII are
  left unchanged by `Lower`. `Strip` removes Python's ASCII whitespace
  (space, tab to carriage return, and U+001C to U+001F), and not U+0085,
  U+00A0 or other Unicode spaces.
- test_script.py is a standalone SMTP smoke test with no decision logic. It
  is not part of this model.
- Page checks that test whether a control is clickable are not in the
  monitor.py source, so they are not modelled.
