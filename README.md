# Friendly Math Tutor: request path and search history

This project models the logic inside the math tutor web page (`web.py`). A
user gives a question, either typed or read by OCR from an uploaded image. The
question goes to a chat model, and the reply is split into an *answer* and
*clues*. The sidebar keeps a search history of past submissions.

The model has three modules:

- `Text` (`text.dfy`): the Python string operations that the page uses,
  written over `seq<char>`. These are `str.strip()`, with Python's exact
  whitespace set; `str.startswith`; the substring test `in`; and
  `str.split(sep)`.
- `Tutor` (`tutor.dfy`): the pure parts of one submission. It covers where
  the question comes from, the key check and the question check, the model
  call, the reply parser, and the history entry one submission produces.
- `History` (`history.dfy`): the session's history list as a class `Session`
  with a `seq` field. `Submit` appends, `Recent` reads the bounded suffix
  newest first in a loop, `Sidebar` formats the sidebar lines, and `Clear`
  empties the list.

The chat model is a function parameter `provider: (string, string) ->
ProviderOutcome`. It returns either the reply text or a fault with its
message. The prompt template and the network call stay behind it.

Two details of the code shape what the model states:

- `split("Clues:")[1]` stops at a second "Clues:", so the clues are the text
  between the first and the second occurrence. `Tutor.CluesAreRemainderIffNoSecond`
  proves the clues equal the stripped remainder after the first "Clues:"
  exactly when there is no second one.
- The code never trims the history list; only the sidebar shows at most five
  entries. The model keeps an unbounded list.

## Model

| member | source | states |
|---|---|---|
| `Text.AsciiWhitespace` | web.py:93 | Below code point 0x80, the characters `strip()` removes are exactly space, tab, the four line and page breaks, and the four ASCII separators 0x1C-0x1F. |
| `Text.Strip` | web.py:93 | The result is the slice of the input between leading and trailing whitespace (Python's whitespace set). Both of its ends are non-whitespace, and it is empty exactly when the input is all whitespace. |
| `Text.StartsWith` | web.py:91 | `s.startswith(prefix)` holds exactly when the prefix fits in `s` and agrees with it character by character. |
| `Text.Find` | web.py:98 | Returns the first index at or after `start` where the pattern occurs, or none when it never occurs there. |
| `Text.Contains` | web.py:98 | `pat in s` holds exactly when some index holds an occurrence of `pat`. |
| `Text.Split` | web.py:99-100 | `split(sep)` gives at least one piece. The first piece is the text before the first separator, or the whole string when there is none. A second piece exists if and only if the separator occurs. |
| `Text.SplitJoin` | web.py:99-100 | Joining the pieces of `s.split(sep)` with `sep` gives back `s`. |
| `Text.SplitPiecesLackSeparator` | web.py:99-100 | No piece of `s.split(sep)` contains `sep`. |
| `Text.SplitSecond` | web.py:99 | `split(sep)[1]` runs from the end of the first separator to the start of the second one, or to the end of the string. |
| `Text.PieceHasNoSeparator` | web.py:99-100 | A piece of a split never contains the separator. |
| `Text.StripNotContains` | web.py:99-100 | Stripping never creates an occurrence of a pattern that was absent. |
| `Text.StripKeepsOccurrence` | web.py:99 | Stripping keeps every occurrence of a pattern whose first and last characters are not whitespace. |
| `Tutor.QuestionOf` | web.py:78-85 | A typed question is used as given. An uploaded image yields its OCR text, or "No text found in the image." when that text is empty, so it is never empty. |
| `Tutor.Validate` | web.py:91-95 | The key is checked first: it is rejected exactly when it does not start with "sk-". The question is then rejected exactly when it is all whitespace. Acceptance needs both checks to pass, and implies a non-empty key. |
| `Tutor.UploadedQuestionCheck` | web.py:83-94 | With a valid key, an uploaded image triggers the empty-question warning exactly when its OCR text is non-empty whitespace. Empty OCR text becomes a question that passes. |
| `Tutor.GenerateResponse` | web.py:35-47 | An empty key gives exactly "Error: No API key provided.". Otherwise the result is the provider's reply, or "Error: " followed by the fault's message. |
| `Tutor.NoKeyErrorIsUnexpectedFormat` | web.py:37-38 | The no-key error text has no "Clues", so the parser rejects it as an unexpected format. |
| `Tutor.ParseResponse` | web.py:98-100 | The reply is rejected as an unexpected format, carrying the reply, exactly when "Clues" does not occur in it. When "Clues" occurs but "Clues:" does not, the answer is the whole stripped reply and the clues are "Clues not provided.". |
| `Tutor.ParseWithDelimiter` | web.py:98-100 | When "Clues:" first occurs at `i`, the reply parses into the stripped text before `i` and the stripped text from the end of that occurrence to the next one or the end. |
| `Tutor.AnswerBeforeFirstDelimiter` | web.py:100 | When "Clues:" first occurs at `i`, the answer is the stripped text before `i`, and it never contains "Clues:". |
| `Tutor.CluesBetweenDelimiters` | web.py:99 | When "Clues:" first occurs at `i`, the clues are the stripped text between that occurrence and the next one (or the end), and they never contain "Clues:". |
| `Tutor.CluesAreRemainderIffNoSecond` | web.py:99 | The clues equal the stripped remainder after the first "Clues:" if and only if "Clues:" does not occur a second time. |
| `Tutor.ParseRoundTrip` | web.py:99-100 | For `a` and `c` without "Clues:", parsing `a + "Clues:" + c` gives the answer `strip(a)` and the clues `strip(c)`. |
| `Tutor.FirstDelimiterAfterPrefix` | web.py:99-100 | In `a + "Clues:" + c` with `a` free of "Clues:", the first "Clues:" starts right after `a`. |
| `Tutor.NoCluesGivenHasNoDelimiter` | web.py:99 | The fallback text "Clues not provided." does not contain "Clues:". |
| `Tutor.ParsedPartsHaveNoDelimiter` | web.py:98-100 | Neither the answer nor the clues of a parsed reply contains "Clues:". |
| `Tutor.Submission` | web.py:90-109 | A submit shows the invalid-key warning exactly when the key lacks "sk-", whatever the question is. It shows the empty-question warning exactly when the key passes and the question is all whitespace. |
| `Tutor.SubmissionFormatError` | web.py:96-109 | After validation the reply is the provider's text (or its error text). The submit ends in the unexpected-format error, carrying that reply, exactly when the reply lacks "Clues". |
| `Tutor.SubmissionRecordsChosenPart` | web.py:102-107 | A recorded entry keeps the question. "Give me clues" records type Clues with the clues. The other action records type Answer with the answer. The recorded response never contains "Clues:". |
| `Tutor.SubmissionOfWellFormedReply` | web.py:96-107 | With valid inputs and a reply `a + "Clues:" + c`, the submit records `strip(c)` as Clues or `strip(a)` as Answer, as the action asks. |
| `History.LastN` | web.py:135 | `history[-n:]` for a positive `n` holds the smaller of `n` and the length entries, and they are the last ones of the list, in order. |
| `History.Reverse` | web.py:135 | `reversed(...)` keeps the length; its elements are given by `History.ReverseAt`. |
| `History.ReverseAt` | web.py:135 | Element `k` of a reversal is element `k` counted from the back. |
| `History.RecentAfterAppend` | web.py:135 | After one more append, the newest-first window starts with the new entry and continues with the old window, one shorter. |
| `History.SevenEntriesShowLastFive` | web.py:135 | After entries e1..e7, the display window is [e7, e6, e5, e4, e3]. |
| `History.WindowAt` | web.py:135 | Element `k` of `reversed(history[-n:])` is the `k`-th entry counted from the end, and the window has the smaller of `n` and the history length entries. |
| `History.EntryLine` | web.py:136 | The sidebar line starts with "Clues - " for a clues entry and "Answer - " for an answer entry, and ends with the entry's response. |
| `History.Session.constructor` | web.py:17-18 | A new session starts with an empty history. |
| `History.Session.Submit` | web.py:90-109 | The outcome is that of `Tutor.Submission` on the form's question. A recorded outcome appends exactly its entry at the end. Every other outcome (warning or format error) leaves the history unchanged. |
| `History.Session.Recent` | web.py:135 | Returns as many entries as the smaller of `limit` and the history length, the newest first, and equals `reversed(history[-limit:])`. The history itself is not touched. |
| `History.Session.Sidebar` | web.py:134-138 | An empty history gives the single line "No search history available.". Otherwise it gives one "Type - Question: Response" line per entry for the newest five entries, newest first. |
| `History.Session.Clear` | web.py:141-142 | The history becomes empty. |

## Left out

- The Streamlit page is not modelled: page config, title, widgets, the form, navigation, success and warning messages, and the session-state mechanics. A session is an object with a `history` field, and the key, question source and action are parameters.
- The chat call is not modelled. This covers the `ChatOpenAI` client, the prompt template text, the temperature setting and the network. The provider is a function parameter returning a reply or a fault message.
- The `@st.cache_data` memoisation of `generate_response` (web.py:33-34) is not modelled. The program caches without expiry: a repeated submit with the same question and key replays the first result without asking the model, including an "Error: ..." text from a fault, so trying again cannot succeed while the process lives. The model treats the provider as a fixed function of the question and the key, which makes the cache invisible.
- Tesseract OCR and image decoding are not modelled. The OCR result is an input string; only the empty-result fallback is modelled.
- The graph plotter (web.py:112-130) is not modelled. It evaluates arbitrary user text with `eval` over numpy arrays and draws with matplotlib, so nothing there can be stated.
- Tutor.GenerateResponse: Python's `not api_key` also catches `None`, which a text input never returns; the model only has strings.
- History.Session.Recent: requires a positive limit. Python's `s[-0:]` is the whole list, not an empty window, and the page only ever uses 5.
- Integer and string sizes are unbounded in the model, as they are in Python.
