# QuickTranslator subtitle core, in Dafny

QuickTranslator translates SubRip (`.srt`) subtitle files through the DeepSeek chat API. It has two front ends, and both are modelled here.

**The desktop application (`code.py`)**
- `NativeSrtParser.parse` tries five text encodings in order. It then cuts the decoded text into blank-line separated blocks. Each block becomes a `Subtitle` (index, start time, end time, content), or it is skipped: silently when it is blank, with a warning otherwise.
- `NativeSrtParser.compose` writes the records back out.
- `translate_text_deepseek` sends one text, with three attempts and growing waits.
- `TranslatorApp.run_translation` does the following:
  - it keeps records with empty bodies as they are;
  - it sends every other record to the translator;
  - it writes each result into a pre-allocated slot, in whatever order the futures complete;
  - it counts processed and failed records.

**The browser page (`script.js`, `HTML/api.js`)**
- `parseSRT` and `generateSRT` form a laxer codec. The number line goes through JavaScript `parseInt`, and the timing line is kept as text.
- `translateSubtitles` puts the translations of `DeepSeekAPI.translateBatch` back onto the records.
- `DeepSeekAPI.translateText` does the following:
  - it returns `""` for a blank text;
  - it refuses the placeholder API key;
  - it flattens line breaks into spaces;
  - it retries up to `config.maxRetries` times, with a capped exponential backoff.

Modules, one per source unit:

- `Wrappers`: `Option` and `Result`.
- `Strings`: the Python and JavaScript string built-ins the code relies on: `strip`/`trim` with each language's whitespace, `split`, `join`, `replace`, `int()` and `str()` of integers.
- `SrtCodec`: `Subtitle`, and `NativeSrtParser.parse`/`compose` (`code.py`).
- `SrtRoundTrip`: what `compose` writes, `parse` reads back.
- `DeepseekClient`: `translate_text_deepseek` (`code.py`).
- `BatchTranslation`: the assembly and counting part of `run_translation` and `finish_translation` (`code.py`).
- `WebApi`: `DeepSeekAPI.translateText` and `translateBatch` (`HTML/api.js`).
- `WebSrt`: `parseSRT`, `generateSRT` and the mapping in `translateSubtitles` (`script.js`).

The model replaces the outside world with parameters:

- **File reads.** They are a function from encoding to read outcome, plus a flag for whether the file exists.
- **HTTP requests.** They are a function from attempt number (and, in the browser, prompt) to reply.
- **Sleeps and timers.** They come back as lists of waits instead of being slept or awaited.
- **Concurrency.** The order in which futures or promises settle is a parameter. Every result that matters is proved not to depend on it.
- **Logging.** The log of `NativeSrtParser.parse` is a list of structured events (`SrtCodec.LogEvent`). The log lines of `translate_text_deepseek` and `run_translation` are left out.

Two behaviours of the code that are easy to misread:

- An HTTP 401 inside one `run_translation` future raises only from that future. `as_completed` then marks that one position with the error marker and counts it as an error; the other futures carry on (`BatchTranslation.AssembleBatch`).
- When all attempts of `translate_text_deepseek` fail, the last attempt raises. It raises `ConnectionError` after a request error, and `RuntimeError` after anything else, including an unexpected response format: that `ValueError` is raised inside the `try` and caught by the generic handler. The comment at code.py:233 says the original text is returned, but the loop never gets there (`DeepseekClient.LastAttemptRaises`).
- With a negative `maxRetries`, `translateText` throws `null` for every non-blank text, and `translateBatch` passes it on. The `catch` of `translateSubtitles` then reads `error.message` on `null` and throws a `TypeError`, so the original records are not returned (`WebSrt.NullRejection`).

Round-trip conditions:

- **Desktop codec.** A record survives `compose` then `parse` unchanged when it has the shape the parser produces: well-formed times, and a non-empty, stripped body. Its body must also hold neither a blank line nor a CR LF pair (`SrtRoundTrip.Composable`).
- **Browser codec.** The conditions are weaker (`WebSrt.Regenerable`), but they include a non-empty timing line and a text that does not start with a line break. An empty timing line writes a blank line into the block, and the record is lost on reading (`WebSrt.EmptyTimecodeIsLost`). Every record `parseSRT` returns meets these conditions, so parsing is idempotent.

## Model

| member | source | states |
|---|---|---|
| SrtCodec.Compose | code.py:147-158 | writes each record as its index line, timing line and content, each ended by a newline, with one extra newline between two records and none after the last (the `Subtitle.__str__` layout) |
| SrtCodec.ComposedStep | code.py:150-158 | the text of the first i+1 records is the text of the first i, a newline when there were any, then record i's text |
| SrtCodec.MatchTimestamps | code.py:37 | a match starts the line with a well-formed `HH:MM:SS,mmm` time, and both captured groups are well-formed times |
| SrtCodec.MatchLenientTimingLine | code.py:37 | any whitespace around the arrow and anything after the end time are accepted, and the two groups are the start and end times |
| SrtCodec.ParseLines | code.py:101-128 | a block parses exactly when it has at least three lines, `int()` reads its first line after BOM stripping, and the timing pattern matches its second line; the record holds that index, the pattern's two captured groups and the stripped rest; otherwise the warning names the first failing check: too few lines, the index line, or the timing line with the index read |
| SrtCodec.BlankBlock | code.py:97-99 | a block is skipped as blank exactly when every character is whitespace |
| SrtCodec.ParsedRecordShape | code.py:117-128 | every parsed record has two well-formed times and a stripped body |
| SrtCodec.ParsedContentNonEmpty | code.py:97-128 | a parsed record's body is never empty: the stripped block's last character lands in it |
| SrtCodec.RecordsHaveContent | code.py:95-128 | every record of a parsed list has a non-empty body |
| SrtCodec.SubtitlesOfAppend | code.py:95-128 | blocks are parsed independently: the records of two runs of blocks are those of the first followed by those of the second |
| SrtCodec.SkippedBlockDropsOut | code.py:98-120 | a blank or malformed block contributes nothing and leaves the records around it in order |
| SrtCodec.ParseBlocks | code.py:94-128 | the loop returns the records of the parsed blocks in block order and one warning per skipped block, numbered from 1 |
| SrtCodec.ParseText | code.py:91-92 | CR LF is normalised and the text stripped before cutting at blank lines |
| SrtCodec.FirstSettledRead | code.py:66-75 | the adopted position is the first encoding whose read does not fail to decode; every earlier one failed to decode |
| SrtCodec.EveryEncodingIsTried | code.py:62 | the list of encodings tried holds all five encodings |
| SrtCodec.Latin1ClosesTheSearch | code.py:60-83 | when Latin-1 decodes, the search stops at or before it, and "no encoding fits" cannot be the outcome |
| SrtCodec.DetectEncoding | code.py:62-83 | adopts the first encoding that decodes, with its text; logs each earlier one as a failure; returns the decode error exactly when every encoding fails to decode |
| SrtCodec.Parse | code.py:53-134 | a missing file is an error with no log; otherwise the encoding loop's error, or the records and warnings of the adopted text after the encoding log |
| SrtRoundTrip.SubtitleTextReadsBack | code.py:30-32 | the text `__str__` gives a record of the parser's shape reads back, as a block, as that same record |
| SrtRoundTrip.ComposedIsJoin | code.py:150-158 | the composed text is the records' blocks joined by blank lines, plus a final newline |
| SrtRoundTrip.ParseComposed | code.py:87-158 | parsing what `compose` wrote gives back the same records, in order, with no warning, for records of the parser's own shape |
| DeepseekClient.FirstSettling | code.py:186-230 | the attempt the loop ends on is the first that gets an answer or an HTTP 401, or the last attempt |
| DeepseekClient.AttemptsMade | code.py:186 | between one and `RETRY_ATTEMPTS` (3) requests are made |
| DeepseekClient.TranslateTextDeepseek | code.py:186-233 | returns or raises what the first settling attempt decides, counts the requests, and waits 2·(k+1) s after a request error on attempt k and 2 s after any other failure |
| DeepseekClient.AnswerIsReturned | code.py:193-199 | a text is returned exactly when some attempt is answered and every earlier one failed retryably; the text is that attempt's stripped answer, or the original text when the stripped answer is empty |
| DeepseekClient.UnauthorisedStopsAtOnce | code.py:209-213 | HTTP 401 raises the authentication error on that attempt, with no further request |
| DeepseekClient.LastAttemptRaises | code.py:200-233 | when no attempt settles, all three requests are made and a non-authentication error is raised: the original text is never returned |
| DeepseekClient.DelaysBounded | code.py:203-228 | the waits follow the two schedules, at most two of them, and never more than 6 seconds in all |
| BatchTranslation.Settled | code.py:462-502 | a slot keeps the record's index and times; an empty record stays as it is, a translated one gets the translation, and a failed one gets `[TRANSLATION_ERROR] ` before its original body |
| BatchTranslation.Filled | code.py:509 | dropping the empty slots changes nothing when every slot was written |
| BatchTranslation.AssembleBatch | code.py:451-505 | for any completion order: one output record per input in input order, each settled from its own result; every slot written exactly once; processed equals the number of records; errors equals the number of failed futures |
| BatchTranslation.KeepEmptyRecords | code.py:460-472 | the submission loop writes exactly the empty records' slots, counting each as processed and none as failed |
| BatchTranslation.CollectResults | code.py:483-505 | the completion loop writes each future's slot once, with its settled record, counts it as processed, and counts exactly the failed ones as errors |
| BatchTranslation.CoveringCount | code.py:451-505 | distinct positions that cover exactly 0..n-1 number n, so the processed counter ends at the record count |
| BatchTranslation.SuccessCount | code.py:552 | total minus errors is the number of positions that were skipped as empty or translated |
| BatchTranslation.ParsedRecordsAreAllSubmitted | code.py:462 | records that come out of the parser all have a body, so each goes to the translator and the successes are exactly the translated ones |
| WebApi.LineBreaksAsSpaces | HTML/api.js:26 | the one-pass reference for the flattening: no line break is left, nothing grows, and a text without line breaks is unchanged |
| WebApi.FlattenIsLineBreaksAsSpaces | HTML/api.js:26 | the two global replacements (CR LF, then LF, by a space) equal the one-pass reference |
| WebApi.Backoff | HTML/api.js:120 | every wait is between 1 and 10 seconds |
| WebApi.BackoffSchedule | HTML/api.js:119-121 | the waits never shrink, double from one second, and stay at the 10-second cap from the fifth retry on |
| WebApi.FinalRetry | HTML/api.js:68-124 | the loop ends on the first retry that is answered, reaches `maxRetries`, or fails with an error about the API key |
| WebApi.RetryOutcome | HTML/api.js:65-127 | the loop throws `lastError` still `null` exactly when `maxRetries` is negative, so the loop body never runs |
| WebApi.RetryRequests | HTML/api.js:65-124 | no request when `maxRetries` is negative; otherwise between one and `maxRetries + 1` |
| WebApi.RetryLoop | HTML/api.js:65-127 | the while loop settles as `RetryOutcome`, sends `RetryRequests` requests, and waits the backoff schedule between each two of them |
| WebApi.FinalRetryAnswered | HTML/api.js:68-124 | the loop ends on an answered request exactly when some retry within the budget is answered and no earlier one gave up |
| WebApi.RetryAnswered | HTML/api.js:68-102 | the retry loop returns exactly when some retry is answered before any other ends the loop, and returns that retry's content |
| WebApi.TextTranslation | HTML/api.js:15-127 | a blank text gives `""`; the placeholder key throws the configuration error; `null` is thrown exactly when `maxRetries` is negative |
| WebApi.Requests | HTML/api.js:65-124 | no request for a blank text, the placeholder key or a negative retry count; otherwise at most `maxRetries + 1` |
| WebApi.TranslateText | HTML/api.js:15-128 | settles as `TextTranslation`, sends `Requests` requests, and waits the backoff schedule between each two of them |
| WebApi.AnswerReturned | HTML/api.js:78-102 | a value is returned exactly when some retry within the budget is answered and no earlier one ended the loop, and the value is that answer's content |
| WebApi.KeyErrorNotRetried | HTML/api.js:112-117 | an error mentioning the API key ends the loop on that attempt and is what is thrown |
| WebApi.ExhaustedThrowsLastError | HTML/api.js:113-127 | when every attempt fails with an ordinary error, `maxRetries + 1` requests are sent and the last error is thrown |
| WebApi.FirstRejected | HTML/api.js:144 | the first call in settling order that threw: it threw, and every call that settled before it returned; none when every settled call returned |
| WebApi.PromiseAll | HTML/api.js:140-145 | returns the values in text order exactly when every call returns; otherwise throws the error of the first call, in settling order, that threw |
| WebApi.FirstThrown | HTML/api.js:149-152 | the first position whose call threw: all before it returned |
| WebApi.InSequence | HTML/api.js:148-153 | returns the values in order exactly when every call returns; otherwise throws the first failing call's error |
| WebApi.TranslateBatch | HTML/api.js:137-158 | settles as the parallel branch for at most 5 texts, the sequential loop otherwise, and starts calls for all texts in parallel and up to the first failure in sequence |
| WebApi.TranslateInSequence | HTML/api.js:148-153 | the loop awaits one call after another, stops at the first that throws, and otherwise returns the values in order |
| WebApi.BatchKeepsOrder | HTML/api.js:137-158 | the batch returns exactly when every text's call returns, and value i is text i's translation, whatever the settling order |
| WebApi.BatchRejection | HTML/api.js:137-158 | a failed batch rethrows the error of one of its calls; in sequence, the first failing text's error, after exactly that many calls |
| WebSrt.LeadingRunIsLongest | script.js:173 | the run `parseInt` reads is a prefix whose characters all pass the test, and the character after it does not |
| WebSrt.Magnitude | script.js:173 | the digits `parseInt` reads are never negative |
| WebSrt.ParseIntOfNumeral | script.js:173 | `parseInt` reads an integer's decimal numeral back, whatever follows that cannot continue it |
| WebSrt.ParseIntOfNumberText | script.js:173 | `parseInt` reads back what the template literal writes for a number, `NaN` included |
| WebSrt.ParseSrt | script.js:166-186 | visits the blocks in order and pushes one record per block of three or more trimmed lines: `parseInt` of the first line, the second line, the rest joined |
| WebSrt.BlockRecordAt | script.js:170-183 | the outcome at each position is that block's own outcome |
| WebSrt.BlocksReadIndependently | script.js:168-183 | the records of two runs of blocks are those of the first followed by those of the second |
| WebSrt.BlockRecordShape | script.js:171-181 | a record's timing line has no line break and its text is non-empty and ends in non-whitespace; a block without a blank line gives a record that survives the round trip |
| WebSrt.ParsedAreRegenerable | script.js:166-186 | every record `parseSRT` returns survives `generateSRT` then `parseSRT` |
| WebSrt.BlockRecordOfRecordBlock | script.js:171-175 | a round-trippable record's block reads back as that record |
| WebSrt.GenerateSrt | script.js:218-224 | an empty list is written as an empty text and any other list as a non-empty text that starts with the first record's block |
| WebSrt.ParseGenerated | script.js:218-224 | reading what `generateSRT` wrote gives back the records, in order, when each is round-trippable |
| WebSrt.ParseIsIdempotent | script.js:166-224 | parsing, writing and parsing again gives what the first parse gave |
| WebSrt.EmptyTimecodeIsLost | script.js:222 | a record with an empty timing line is written with a blank line inside its block and is lost on reading |
| WebSrt.Translated | script.js:201-213 | keeps every record's number and timing line; a missing or empty translation keeps the text; a batch that threw an error returns the records unchanged; a batch that threw `null` makes the `catch` block throw a `TypeError` on `error.message`, and nothing is returned |
| WebSrt.TranslateSubtitles | script.js:189-215 | the batch fails exactly when some text's call throws; then every record is kept unless the call itself throws; otherwise each record gets its own text's translation, and blank texts stay as they are |
| WebSrt.NullRejection | script.js:207-213 | `translateSubtitles` throws instead of returning the records exactly when the key is configured, `maxRetries` is negative and some record has a non-blank text |
| WebSrt.TranslatedRoundTrip | script.js:201-224 | when records come back, putting back round-trippable translations keeps them writable and readable back unchanged |
| Strings.PyIntOfIntToString | code.py:111 | `int()` reads back the index `str()` wrote, negative numbers included |
| Strings.IntRefusesSeparator | code.py:108-113 | `int()` fails on a numeral followed by one of the separators `\x1c` to `\x1f`, which `str.strip()` would remove, so such a block is skipped |
| Strings.JoinSplit | code.py:125-126 | joining the pieces of a split with the separator gives back the text |
| Strings.SplitTwoLines | script.js:171-174 | a text whose first two lines hold no break splits into those two lines followed by the lines of the rest |
| Strings.SplitJoin | script.js:221-223 | splitting a join of pieces that cannot hold the separator gives back the pieces |

## Left out

- File I/O, the GUI, the DOM and dialog boxes are left out. Reading and writing files is replaced by parameters or by the returned text. A decoded read, `Decoded(text)`, stands for the text after Python's universal-newline translation. A real `f.read()` in text mode never yields `\r`, so the CR LF replacement at code.py:91 has no effect on it. The round trip `SrtRoundTrip.ParseComposed` is stated on strings. Through real files it also needs bodies free of any lone `\r`, not only of CR LF pairs, because writing in text mode keeps `\r` and reading turns it into `\n`. Alerts, the progress bar and button state are not modelled.
- Logging text is left out. The log lines of `parse` are structured events, and the formatting of their messages is not modelled. The log lines of `run_translation` are not modelled at all: the skip line for an empty record (code.py:463) and the error line for a failed future (code.py:495). Neither are the warnings `translate_text_deepseek` prints (code.py:198, 204, 220, 227, 232). The same goes for the text of error messages, except where the code branches on it (`configure your DeepSeek API key`, the placeholder key, the HTTP status message).
- The request payloads are left out: the `code.py` prompt, `source_lang.lower()`, the model name and the headers. The responses are reduced to the reply kinds the code distinguishes.
- Concurrency is left out. The thread pool, `as_completed` and `Promise.all` become an order parameter, and the AbortController timeout becomes a failed reply.
- `run_translation` wiring is left out: its timing, the progress percentages, the after-filter sanity checks and the `finish_translation` dialogs. It only wires together the modelled parts.
- config.js is not part of this model. Its two settings that matter are passed in as `Config`.
- script.js:119 passes the promise of `translateSubtitles` to `generateSRT` without awaiting it. The model composes the awaited value.
- `WebSrt.ParseInt`: does not model the float precision of `parseInt` above 2^53. It also leaves out the `Infinity` and `NaN` forms of its argument beyond an empty digit run, because record numbers are small integers.
- The browser texts are always strings. `undefined` or `null` texts are not modelled, because `parseSRT` never produces them.
- `WebSrt.Translated`: the `TypeError` thrown on a `null` batch error carries V8's message. Other engines word it differently, and the model does not distinguish them.
- `WebApi.TranslateText`: `sourceLang` is accepted and not used, as in the source, and `config.maxRetries` is taken to be an integer.
- `DeepseekClient.TranslateTextDeepseek`: a response whose `content` is not text is folded into the generic exception case.
- `Strings.PyInt`: Python `int()` is modelled on ASCII numerals only. Digit-group underscores and non-ASCII decimal digits, which `int()` also accepts, are not modelled. Neither is the limit of 4300 digits that Python 3.11 and later put on decimal conversion, because record numbers are short.
- `SrtCodec.MatchTimestamps`: `\d` and `\s` are taken as ASCII digits and Python whitespace. Unicode decimal digits outside ASCII are not modelled.
