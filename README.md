# Review sentiment upload: a Dafny model

This project models the decision logic of `sentiment_analysis/views.py`, the
Django view of a small review-sentiment site. A user uploads a spreadsheet of
customer reviews. The view checks the upload and takes the first fifty
entries of its `Review` column. It asks a hosted language model (through the
Groq client) for positive, negative and neutral proportions, and decodes the
JSON object in the model's reply. The model covers two parts:

- **The upload checks** (`analyze_sentiment`). These are an ordered chain of
  early exits: no file, an extension that is not `csv`, `xlsx` or `xls`, a
  reader that raises, no `Review` column. After them come the fifty-row cut,
  the analysis call and the wrapping of its failure.
- **The reply parser** (`analyze_reviews` after the network call). It strips
  the reply and decodes it whole. Only when that decode raises a
  `JSONDecodeError` does it try the span that the regex `\{.*\}` (DOTALL)
  finds. It checks the three score keys and rewraps every failure as
  `Error in Groq API call: ...`.

Everything outside those decisions is a parameter: `json.loads` (a function
from text to an optional JSON value), `json.dumps`, the chat-completion call,
and the pandas readers. An "is never invoked" property is stated as
independence: the result is the same whatever that collaborator would have
returned.

Modules: `Wrappers` (Option, Result), `Strings` (Python `strip`, `split`,
`lower`, `find`, `rfind`, substring `in`), `JsonValue` (the decoded value
and Python's `in` on it), `ScoreParser` (the regex span, the two stages,
`analyze_reviews`), `Upload` (the validation chain, the fifty-row batch, the
view).

One might expect the regex fallback to run whenever stage 1 fails, including
when the decoded object lacks a key. In the code it does not: a missing key
raises `ValueError` at line 86. The handler at line 89 catches only
`JSONDecodeError`, so that error skips the fallback and is rewrapped at
line 104. So the reply `{"positive":0.5,"negative":0.5}` ends in
`Error in Groq API call: Missing required keys in the response`. It does not
end in the terminal error that quotes the reply
(`ScoreParser.IncompleteObjectIsMissingKeys`).

## Model

| member | source | states |
|---|---|---|
| `Strings.Trim` | sentiment_analysis/views.py:75 | `strip()` leaves a text that neither starts nor ends with whitespace, and the input is that text framed by whitespace on both sides |
| `Strings.TrimUnique` | sentiment_analysis/views.py:75 | any split of a text into whitespace, a bare middle and whitespace has `strip()`'s result as its middle |
| `Strings.TrimIdempotent` | sentiment_analysis/views.py:75 | stripping an already stripped text changes nothing |
| `Strings.TrimFrame` | sentiment_analysis/views.py:75 | the text is its leading whitespace, then its stripped text, then its trailing whitespace |
| `Strings.IndexOfAfter` | sentiment_analysis/views.py:91 | a prefix without `c` moves the first `c` by its length and changes nothing else |
| `Strings.LastIndexOfBefore` | sentiment_analysis/views.py:91 | a suffix without `c` leaves the last `c` where it was |
| `Strings.Split` | sentiment_analysis/views.py:24 | `split(sep)` always returns at least one piece, so `[-1]` never fails |
| `Strings.SplitLast` | sentiment_analysis/views.py:24 | the last piece of `split(sep)` is a `sep`-free suffix of the text that is either the whole text or directly follows a `sep` |
| `Strings.LastPieceOfSplit` | sentiment_analysis/views.py:24 | `split(sep)[-1]` is the text after the last `sep`, or the whole text when there is none |
| `Strings.LastPieceIsFinal` | sentiment_analysis/views.py:24 | the text after the last `sep` holds no `sep`, is the whole text when `sep` does not occur, and otherwise directly follows a `sep` |
| `Strings.FinalPieceIsLastPiece` | sentiment_analysis/views.py:24 | a `sep`-free suffix that is the whole text or directly follows a `sep` can only be the text after the last `sep` |
| `Strings.ContainsIff` | sentiment_analysis/views.py:85 | Python's `key in text` holds exactly when `key` occurs at some position of `text` |
| `JsonValue.In` | sentiment_analysis/views.py:85 | `key in value` tests dict keys, list elements equal to the string, or substrings; it raises `TypeError` exactly for null, bool, int and float, naming the type `NoneType`, `bool`, `int` or `float` |
| `JsonValue.NotIterableMessage` | sentiment_analysis/views.py:85 | the `TypeError` text is `argument of type '`, then the type name, then `' is not iterable` |
| `JsonValue.NotIterableMessageNamesType` | sentiment_analysis/views.py:85 | two types with the same message are the same type: the text identifies the type |
| `JsonValue.CheckKeys` | sentiment_analysis/views.py:85 | the `all(...)` check passes exactly when every key's membership test is true; it raises exactly when the first key's test raises, with that `TypeError` |
| `JsonValue.CheckKeysObject` | sentiment_analysis/views.py:85 | for a decoded object the check passes exactly when all keys are present, and otherwise reports a missing key, never a `TypeError` |
| `ScoreParser.BraceSpan` | sentiment_analysis/views.py:91 | any span found has at least two characters, opens with `{` and closes with `}` |
| `ScoreParser.BraceSpanIsSearch` | sentiment_analysis/views.py:91 | a span exists exactly when some `{` is followed later by a `}`, and it is the match of `\{.*\}` with the leftmost start and, from there, the longest extent |
| `ScoreParser.BraceSpanUnique` | sentiment_analysis/views.py:91 | the span is the one `re.search` finds: first `{` through last `}` |
| `ScoreParser.WholeSpan` | sentiment_analysis/views.py:91 | a text opening with `{` and closing with `}` is its own span |
| `ScoreParser.BraceSpanAfterProse` | sentiment_analysis/views.py:91 | brace-free prose before a text does not change the span found |
| `ScoreParser.BraceSpanBeforeProse` | sentiment_analysis/views.py:91 | brace-free prose after a text does not change the span found |
| `ScoreParser.BraceSpanFramed` | sentiment_analysis/views.py:91 | brace-free prose around a text does not change the span found |
| `ScoreParser.BraceSpanOfTrim` | sentiment_analysis/views.py:91 | searching the stripped reply finds the same span as searching the raw reply |
| `ScoreParser.Fallback` | sentiment_analysis/views.py:91-101 | stage 2 succeeds exactly when the span exists, decodes and has all three keys, and then returns that decode; every other outcome is `"Failed to parse Groq API response: "` + the stripped text |
| `ScoreParser.ParseScores` | sentiment_analysis/views.py:81-101 | a whole-text decode alone decides the outcome: the value with all keys, the missing-keys error, or the `TypeError` text. Only a decode error leads to stage 2. Any value returned has all three keys |
| `ScoreParser.ParseScoresOkIff` | sentiment_analysis/views.py:81-101 | the parser returns `v` exactly when the whole text decodes to `v` with all keys, or the whole text fails to decode and the span decodes to `v` with all keys |
| `ScoreParser.DirectDecodeDecides` | sentiment_analysis/views.py:82-88 | when the whole text decodes, two decoders that agree on it give the same result; the fallback is not consulted |
| `ScoreParser.MissingKeysSkipsFallback` | sentiment_analysis/views.py:85-89 | a decoded object lacking a score key gives exactly `Missing required keys in the response`, with no fallback |
| `ScoreParser.HasScoresMeans` | sentiment_analysis/views.py:85 | the key test accepts a dict with the three keys, a list with the three strings, or a str containing the three words, and never `None`, a bool or a number |
| `ScoreParser.ScalarSkipsFallback` | sentiment_analysis/views.py:85-89 | a decoded `None`, bool, int or float makes the key test raise the `TypeError` naming its type, which also skips the fallback |
| `ScoreParser.NoCandidateIsTerminal` | sentiment_analysis/views.py:91-101 | a text that fails to decode and has no `}` after a `{` gives the terminal error embedding the whole stripped text |
| `ScoreParser.AnalyzeReviews` | sentiment_analysis/views.py:50-104 | a `dumps` failure passes through unwrapped; a failed call gives `Error in Groq API call: ` + its message; after a successful call the result is the parse of the stripped reply, its value unchanged and its error behind that prefix. Any value has all three keys |
| `ScoreParser.DecodedReplyReturned` | sentiment_analysis/views.py:75-88 | a stripped reply that decodes whole to a value with the three keys is returned unchanged |
| `ScoreParser.UnparsableReplyWrapped` | sentiment_analysis/views.py:75-104 | a reply that does not decode and has no `}` after a `{` gives `Error in Groq API call: Failed to parse Groq API response: ` + the stripped reply |
| `ScoreParser.AnalyzeReviewsIgnoresPadding` | sentiment_analysis/views.py:75 | whitespace added around the completion text never changes the result |
| `ScoreParser.MissingKeysMessage` | sentiment_analysis/views.py:85-104 | a reply decoding to an object without a score key surfaces as `Error in Groq API call: Missing required keys in the response` |
| `ScoreParser.ProseWrappedReplyUsesFallback` | sentiment_analysis/views.py:89-97 | a score object wrapped in prose fails stage 1 and is returned by stage 2 |
| `ScoreParser.IncompleteObjectIsMissingKeys` | sentiment_analysis/views.py:82-86 | `{"positive":0.5,"negative":0.5}` ends in the missing-keys error, not in the error quoting the text |
| `Upload.Extension` | sentiment_analysis/views.py:24 | the extension never contains a dot, and a name without a dot is its own extension, lower-cased |
| `Upload.ExtensionIsFinalPiece` | sentiment_analysis/views.py:24 | the extension is the last `.`-separated piece of the name, lower-cased |
| `Upload.ExtensionAfterLastDot` | sentiment_analysis/views.py:24 | whatever precedes the last dot does not affect the extension |
| `Strings.Lower` | sentiment_analysis/views.py:24 | `lower()` keeps the length and maps each character to its lower-case form |
| `Upload.FormatOf` | sentiment_analysis/views.py:27-32 | `csv` selects the CSV reader, `xlsx` or `xls` the Excel reader, and nothing else selects one |
| `Upload.AcceptedExtensions` | sentiment_analysis/views.py:24-32 | a format is chosen exactly when the lower-cased last piece is `csv`, `xlsx` or `xls` |
| `Upload.UpperCaseCsvAccepted` | sentiment_analysis/views.py:24-28 | `NAME.CSV` selects the CSV reader |
| `Upload.BareCsvNameAccepted` | sentiment_analysis/views.py:24-28 | a file named just `csv` selects the CSV reader |
| `Upload.InnerExtensionIgnored` | sentiment_analysis/views.py:24-32 | `reviews.csv.bak` is refused |
| `Upload.ReviewBatch` | sentiment_analysis/views.py:39 | the batch has min(n, 50) entries, and each is the column's entry at the same position |
| `Upload.BatchIsPrefix` | sentiment_analysis/views.py:39 | the batch is the whole column when it has at most 50 entries, else its first 50 |
| `Upload.LongColumnTruncated` | sentiment_analysis/views.py:39 | a 120-entry column yields exactly its first 50 entries, and the dropped rest completes the column |
| `Upload.Validate` | sentiment_analysis/views.py:19-39 | a request is accepted exactly when it is a POST with a file, a known format, a reader result and a `Review` column. The accepted batch is that column's first 50 entries |
| `Upload.AnalyzeSentiment` | sentiment_analysis/views.py:19-47 | the empty form appears exactly for non-POST requests. A result page appears exactly when validation accepts and the analysis succeeds, and it shows the analysis's value unchanged |
| `Upload.HandleUpload` | sentiment_analysis/views.py:41-45 | with the real `analyze_reviews` plugged in, every result page's scores hold all three keys |
| `Upload.GetRendersForm` | sentiment_analysis/views.py:47 | a request that is not a POST renders the empty form |
| `Upload.MissingFileRefused` | sentiment_analysis/views.py:20-21 | a POST without a file gives `No file uploaded` whatever the readers and the analysis |
| `Upload.BadExtensionRefused` | sentiment_analysis/views.py:24-32 | an unknown extension gives exactly the invalid-format message, and no reader or analysis affects the page |
| `Upload.ReadFailureReported` | sentiment_analysis/views.py:26-34 | a reader that raises gives `Error reading file: ` + its message, whatever the analysis |
| `Upload.MissingColumnRefused` | sentiment_analysis/views.py:36-37 | a table without a column labelled `Review` gives the missing-column message, whatever the analysis |
| `Upload.RefusalIgnoresAnalysis` | sentiment_analysis/views.py:20-45 | whenever any check fails, the page does not depend on the analysis |
| `Upload.AnalysisDecides` | sentiment_analysis/views.py:39-45 | once every check passes, the analysis of the first-50 batch decides the page: its scores are shown unchanged, its failure appears as `Error during sentiment analysis: ` + message |
| `Upload.MissingColumnNeverCallsService` | sentiment_analysis/views.py:36-37 | a spreadsheet without `Review` gives the same page for every completion service and decoder |
| `Upload.MissingKeyPage` | sentiment_analysis/views.py:44-45 | a reply lacking a score key is shown as the analysis prefix, then the API prefix, then the missing-keys message |

## Left out

- The Groq client, `load_dotenv` and the API key (lines 13-16). These are process set-up and network access. The call at lines 65-75 is the parameter `complete`: the reply text, or the text of what it raises, including a reply whose content is `None`.
- The prompt wording (lines 51-62). `Prompt` records only the serialised batch, the one part that varies. `json.dumps` is the parameter `dumps`, and its failure is modelled as passing through unwrapped.
- The internals of `pandas.read_csv`, `pandas.read_excel`, `json.loads` and `json.dumps`. These are external libraries. `json.loads` raising anything other than `JSONDecodeError`, such as `RecursionError` on deep nesting, is not modelled.
- Django's request, `request.FILES` and `render`. These are HTTP and template I/O. The request is a POST flag plus an optional file name, and the rendered page is the `Page` value.
- `JsonValue.In`: the `TypeError` text is CPython's `argument of type '<type>' is not iterable`, which other Python versions may word differently. Float values are kept as their digit text and never inspected, as the code never inspects them.
- `Strings.Lower`: only ASCII capitals are lowered, since a file extension that selects a reader is ASCII.
- `Upload.Extension`: `lower()` is modelled on ASCII letters only. Non-ASCII letters keep their case. This matters only if a non-ASCII character lowers to one of `c`, `l`, `s`, `v`, `x`.
- `Upload.Validate`: column labels are strings, and `df['Review']` is one column. A frame with two `Review` columns would make `tolist()` fail outside any handler, but pandas renames duplicate labels when reading, so this case is not modelled.
- The commented-out debug print (line 78), and any check that the three scores sum to 1.0, which the code does not make.
