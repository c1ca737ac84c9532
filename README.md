# IntelligentRetry: a verified model of the retry hook

This project models the AstrBot plugin `IntelligentRetry` (main.py) in Dafny and
proves what it promises. The plugin checks the final reply of a language-model
call. It re-asks the model when that reply is bad. A reply is bad when its text
holds one of the configured error phrases, or when it has no content at all. The
plugin keeps the first good answer. When every attempt fails, it clears the
result and stops the event, so the user is never sent an error text or a blank
message.

Modules:

- `Wrappers` (wrappers.dfy): `Option`, used for absent configuration keys, absent
  results and model calls that yield no text.
- `Text` (text.dfy): the Python string operations the plugin uses. `Strip` is
  `str.strip()` over Python's exact whitespace set. `Lower` is `str.lower()`.
  `Contains` is the `in` substring test. `Split`/`Join` are `str.split(sep)` and
  `sep.join`.
- `Keywords` (keywords.dfy): the settings `__init__` reads, their defaults, and
  the error-keyword list built from the newline-separated `error_keywords` text.
- `Classifier` (classifier.dfy): message segments (`Plain(text)` or `Other`), the
  keyword test and the has-content test, and their combination `IsBadReply`.
- `Plugin` (plugin.dfy): the `Event` the hook decorates and the `IntelligentRetry`
  class. Its method `CheckAndRetry` is the hook: the guards, the `should_retry`
  flag and the counted attempt loop. It updates the event's result and stopped
  flag in place. Its contract ties the final state, the number of model calls
  and the number of pauses to the closed-form function `Decide`. The lemmas
  beside `Decide` state what the hook guarantees.

The model call `_perform_retry` is an oracle. The hook receives it as
`respond: nat -> Option<string>`, where `respond(k)` is the completion text of
attempt `k`. `None` stands for no provider, a raised exception, or a response
with no completion text. The pause `asyncio.sleep(retry_delay)` is counted, not
timed.

The package docstring in `__init__.py` (`__init__.py:4-13`) advertises truncation
detection. main.py has no such code, and the model follows main.py.

## Model

| member | source | states |
|---|---|---|
| `Text.Strip` | main.py:36 | `strip()` returns a string with no whitespace at either end (Python's `isspace` set), no longer than its input, and empty exactly when the input is blank |
| `Text.StripRemovesEnds` | main.py:36 | `strip()` removes only a blank prefix and a blank suffix: the input is prefix + result + suffix |
| `Text.StripTrimmed` | main.py:122 | a string with no surrounding whitespace is returned unchanged |
| `Text.StripIdempotent` | main.py:36 | stripping twice is the same as stripping once |
| `Text.LowerChar` | main.py:99 | a lower-cased character is never an upper-case letter, is whitespace exactly when the original was, and is unchanged when it was not upper-case |
| `Text.LowerIdempotent` | main.py:36 | `lower()` yields a lower-case string, leaves lower-case strings alone, and is idempotent |
| `Text.LowerKeepsTrim` | main.py:36 | lower-casing neither adds nor removes surrounding whitespace, and keeps a blank string blank |
| `Text.ContainsAt` | main.py:100 | `keyword in text` holds exactly when the keyword is a prefix of the text at some offset |
| `Text.ContainsInEmpty` | main.py:100 | only the empty string occurs in the empty string |
| `Text.Split` | main.py:36 | `split('\n')` yields at least one piece and no piece contains the separator |
| `Text.JoinSplit` | main.py:36 | joining the pieces of a split with the separator gives back the original text |
| `Text.SplitJoin` | main.py:36 | splitting a join of separator-free pieces gives back the pieces |
| `Text.SplitAtSeparator` | main.py:36 | splitting `a + sep + b` gives the pieces of `a` followed by the pieces of `b` |
| `Text.SplitNoSeparator` | main.py:36 | a text without the separator splits into itself alone |
| `Keywords.NormalizedLine` | main.py:36 | a non-blank line, stripped and lower-cased, is non-empty, trimmed and lower-case |
| `Keywords.KeywordsFromLines` | main.py:36 | the comprehension keeps at most one keyword per line, and every stored keyword is non-empty, trimmed and lower-case |
| `Keywords.KeywordsAppend` | main.py:36 | line order is kept: the keywords of two blocks of lines are the first block's followed by the second's |
| `Keywords.KeywordsOfLine` | main.py:36 | a blank line contributes nothing; any other line contributes its stripped, lower-cased text |
| `Keywords.KeywordsMembership` | main.py:36 | a keyword is stored exactly when some non-blank line strips and lower-cases to it |
| `Keywords.KeywordsEmpty` | main.py:36-43 | the list is empty, the case the plugin warns about, exactly when every line is blank |
| `Keywords.KeywordsOfStored` | main.py:36 | lines that are already stored keywords are kept exactly as they are |
| `Keywords.PlainKeyword` | main.py:34 | a separator-free, trimmed, lower-case, non-empty line splits into itself and is a stored keyword |
| `Keywords.DefaultTextJoined` | main.py:34 | the default keyword text is the six default phrases joined by newlines |
| `Keywords.DefaultKeywordsPlain` | main.py:34 | each default phrase is one non-empty, trimmed, lower-case line |
| `Keywords.DefaultKeywordsParsed` | main.py:34-36 | with `error_keywords` absent, the stored list is exactly the six default phrases, in order |
| `Classifier.ErrorTextAt` | main.py:98-102 | the reply text is flagged exactly when it is non-empty and some keyword occurs at some offset of its lower-cased form |
| `Classifier.ErrorTextIgnoresCase` | main.py:99-100 | two texts that lower-case alike are flagged alike |
| `Classifier.ErrorTextOfLowered` | main.py:99-100 | flagging the lower-cased text is the same as flagging the text |
| `Classifier.EmptyTextHasNoKeyword` | main.py:98-100 | when no keyword is empty, the empty text holds no keyword |
| `Classifier.NoContentIff` | main.py:105-113 | a chain has no content exactly when every segment is `Plain` with text that strips to nothing; this includes the empty chain, and any non-`Plain` segment is content |
| `Classifier.PlainResultHasContent` | main.py:106-110 | a plain result whose text is not blank has content |
| `Classifier.HasContentAppend` | main.py:106-110 | a chain has content exactly when one of its two parts has |
| `Plugin.AttemptText` | main.py:122 | an attempt's text is trimmed; it is empty when the call yielded nothing, and otherwise empty exactly when the completion is blank |
| `Plugin.FirstSuccess` | main.py:117-127 | the loop stops at the first acceptable attempt: the returned attempt is acceptable (or is one past the budget), and every earlier attempt failed |
| `Plugin.FirstSuccessAt` | main.py:117-127 | an acceptable attempt after only failed ones is the one the loop stops at |
| `Plugin.UntouchedIff` | main.py:86-116 | the result is left alone exactly when retries are disabled, there is no result, the reply is not bad, or the user's message strips to nothing; then no call and no pause are made |
| `Plugin.ReplacedIff` | main.py:116-127 | the result is replaced exactly when retrying is enabled and some attempt within the budget is acceptable |
| `Plugin.ReplacedIsFirstAcceptable` | main.py:117-127 | a replacement is the stripped text of the first acceptable attempt; that attempt is the last call made, every earlier one failed, and one pause followed each failure |
| `Plugin.ReplacementIsClean` | main.py:122-125 | a replacement is non-empty, trimmed and keyword-free, and the new plain result is not itself a bad reply |
| `Plugin.ExhaustedIff` | main.py:117-135 | the result is cleared and the event stopped exactly when retrying is enabled and every attempt fails; then exactly `max_attempts` calls and `max_attempts - 1` pauses were made |
| `Plugin.CallsBounded` | main.py:117-131 | at most `max_attempts` calls are made, and there is one pause fewer than calls, none after the last attempt |
| `Plugin.MissingResponseFails` | main.py:122 | a call that yields nothing (no provider, an exception, no completion text) is a failed attempt, not an escaping error |
| `Plugin.ThreeSilentAttemptsExhaust` | main.py:117-135 | with the default three attempts and a model that never answers, the hook makes three calls, pauses twice, then clears and stops |
| `Plugin.IntelligentRetry.constructor` | main.py:26-36 | each setting falls back to its default (3 attempts, delay 2, the six phrases) when absent; the stored keywords are non-empty, trimmed and lower-case |
| `Plugin.IntelligentRetry.CheckAndRetry` | main.py:81-135 | the hook makes `Decide`'s number of calls and pauses. It leaves the event untouched, or sets the result to the plain text of the first acceptable attempt, or clears the result and stops the event, as `Decide` says |

## Left out

- `_perform_retry` (main.py:45-78): its provider lookup, conversation-history loading, image-URL collection and `text_chat` call are asynchronous I/O against the framework. The model replaces all of it with the oracle `respond`. An oracle is a pure function, so the model assumes the hook's attempts do not affect each other.
- `asyncio.sleep(retry_delay)` (main.py:131): counted as one pause of `retry_delay`; no time passes in the model.
- Logging, the `@register` and `@filter.on_decorating_result` decorators, the hook's priority, and `terminate` (main.py:12-17, 38-43, 80, 137-138): framework plumbing with no behaviour to verify. `Keywords.KeywordsEmpty` covers the condition behind the empty-list warning.
- `Text.Lower`, `Text.LowerChar`: fold only the ASCII letters A-Z, while Python's `str.lower()` folds every cased Unicode letter; so `Text.LowerChar`'s clause "unchanged when not upper-case" is stronger than Python for letters such as 'Ä'. The default phrases are unaffected, because Chinese characters have no case.
- `get_plain_text()` belongs to the AstrBot framework and is not part of this model. A `Reply` therefore carries the plain text it reports next to its chain, and the two are not tied together.
- `event.get_result()` is modelled as an optional reply. A present result is always taken as truthy, so `if not result` means "no result".
- Configuration values are modelled as integers and a string. Values of other types (a float `retry_delay`, a non-string `error_keywords`) are not modelled.
- `__init__.py`: package metadata and a re-export, with no logic.
