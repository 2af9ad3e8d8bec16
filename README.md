# gemini-translate: a Dafny model of the resumable batch translator

`gemini-translate.py` translates the `context` column of a CSV table row by row
through a remote language model and appends each result to an output CSV. The
run can be resumed: when it starts, it reads the output file, collects the
source texts that are already there, and skips every row whose text it finds.
This project models three parts of that script and proves what they promise:

- `clean_text`, the whitespace normaliser applied to every translation
  (module `Text`, file `text.dfy`);
- `translate`'s outcome as the caller sees it (module `Translator`, file
  `translator.dfy`):
  - the prompt sent to the model;
  - the stripped and cleaned reply with its token count (zero when the
    response reports none);
  - an exception, classified as quota exhaustion when its message mentions
    `RESOURCE_EXHAUSTED` or `429`, and as a generic error otherwise;
- the part of `main` from the output-file bootstrap through the batch loop
  (module `Batch`, file `batch.dfy`):
  - reading or creating the output file to get the completed set;
  - the index range `start .. min(end, total_rows)`;
  - `iloc` row lookup, which wraps negative indices around and raises out of
    range;
  - skip / translate / append with the three counters;
  - exit status 1 on every fatal path.

`Batch.RunSpec` is the whole run written as a function. `Batch.Loop` is the
loop in recursive form. `Batch.Run` is the same run written as the script's
imperative loop, with mutable counters and a growing row list, and it is
proved equal to `RunSpec`. The lemmas in `BatchProperties`
(`batch_properties.dfy`) state the script's promises about `RunSpec`.

The script's calls out of the program become parameters:

- `translate(i, text)` is what `translate` returns when row `i` is visited
  with source text `text`.
- `Batch.Via` builds `translate` from a remote service
  `remote(i, prompt) -> Reply`: it builds the prompt, calls the service and
  runs `Translator.Translate` on the reply.
- `writeOk(i)` says whether appending the row for index `i` succeeds.
- `Disk` is what the output path holds at start-up: absent, or present with a
  flag saying whether it can be read back.
- `canCreate` says whether creating the file would succeed.

A run produces a `Report`. It holds the exit outcome, the output file
afterwards, the counters, and a log with one entry per visited index: skipped,
translated, or stopped.

## Model

| member | source | states |
|---|---|---|
| Text.IsSpace | gemini-translate.py:19 | Python's exact `str.isspace` set, not an abstract predicate: space, `\t`, `\n`, `\v`, `\f`, `\r`, U+001C–U+001F, U+0085, U+00A0, U+1680, U+2000–U+200A, U+2028, U+2029, U+202F, U+205F and U+3000. `split()` and `strip()` (line 32) break on exactly these. `Text.Split`, `Text.TrimStart` and `Text.TrimEnd` use it. |
| Text.ReplaceNewlines | gemini-translate.py:18 | The result has the input's length; each `\r` and `\n` becomes a space and every other character is kept. |
| Text.Split | gemini-translate.py:19 | Argument-less `split()` yields only words: non-empty and free of whitespace. It yields at least one word when the input starts with a non-whitespace character. |
| Text.TrimStartDropsLeadingSpace | gemini-translate.py:32 | The left half of `strip()` removes a prefix made only of whitespace and leaves a suffix of the input. |
| Text.TrimEndDropsTrailingSpace | gemini-translate.py:32 | The right half of `strip()` removes a suffix made only of whitespace and leaves a prefix of the input. |
| Text.Join | gemini-translate.py:19 | `' '.join(ws)`. `Text.SplitJoin` and `Text.JoinIsClean` give its meaning: `split()` inverts it on words, and it produces clean strings. |
| Text.CleanText | gemini-translate.py:12-19 | `clean_text` itself. Its promises are the `Text.CleanText…` lemmas below: shape, kept words and characters, fixed points, idempotence, indifference to `strip()`. |
| Text.TrimStart | gemini-translate.py:32 | The left half of `strip()`: the result is empty or starts with a non-whitespace character, and is no longer than the input. `Text.TrimStartDropsLeadingSpace` adds that exactly a whitespace prefix is removed. |
| Text.TrimEnd | gemini-translate.py:32 | The right half of `strip()`: the result is empty or ends with a non-whitespace character, and is no longer than the input. `Text.TrimEndDropsTrailingSpace` adds that exactly a whitespace suffix is removed. |
| Text.Strip | gemini-translate.py:32 | `str.strip()`. `Text.SplitTrimStart`, `Text.SplitTrimEnd` and `Text.CleanTextAfterStrip` show it keeps the words, so `clean_text` after it gives the same result. |
| Text.SplitJoin | gemini-translate.py:19 | `split()` gives back exactly the list of words that `' '.join` was given. |
| Text.JoinIsClean | gemini-translate.py:19 | `' '.join` of words is clean: its only whitespace is single spaces between two non-whitespace characters. |
| Text.JoinSplitClean | gemini-translate.py:19 | On a clean string, `' '.join(s.split())` gives back the string. |
| Text.SplitReplaceNewlines | gemini-translate.py:18-19 | Turning `\r`/`\n` into spaces does not change the words `split()` finds. |
| Text.ConcatSplit | gemini-translate.py:19 | The words of a string, run together, are exactly its non-whitespace characters in order. |
| Text.CleanTextShape | gemini-translate.py:12-19 | Empty input is returned unchanged. Any output is clean: no `\r` or `\n`, no leading or trailing whitespace, and no two adjacent spaces. |
| Text.CleanTextKeepsWords | gemini-translate.py:17-19 | `clean_text` keeps the input's words, in order. |
| Text.CleanTextKeepsNonSpace | gemini-translate.py:17-19 | `clean_text` keeps every non-whitespace character of the input, in order, and adds none. |
| Text.CleanTextFixedPoints | gemini-translate.py:12-19 | `clean_text(s) == s` holds exactly when `s` is clean (in both directions). |
| Text.CleanTextIdempotent | gemini-translate.py:12-19 | `clean_text(clean_text(x)) == clean_text(x)`. |
| Text.CleanTextAfterStrip | gemini-translate.py:32-33 | `clean_text(s.strip()) == clean_text(s)`, so stripping the reply first changes nothing. |
| Text.CleanTextExample | gemini-translate.py:12-19 | `clean_text("a\n\nb  c\r") == "a b c"`. |
| Translator.Prompt | gemini-translate.py:25 | The f-string sent to the model. `Translator.PromptQuotesText` states that it ends with the quoted source text. |
| Translator.PromptQuotesText | gemini-translate.py:25 | The prompt ends with the source text in double quotes. |
| Translator.Contains | gemini-translate.py:41 | Python's `pattern in s` is true exactly when the pattern occurs somewhere in `s`. |
| Translator.Classify | gemini-translate.py:40-48 | A failure is quota exhaustion exactly when its message contains `RESOURCE_EXHAUSTED` or `429`; otherwise it is a generic error. |
| Translator.Translate | gemini-translate.py:21-49 | `translate` succeeds exactly when the remote call returns a response rather than raising. |
| Translator.TranslateOutcome | gemini-translate.py:27-48 | On success the text is `clean_text` of the reply: clean, with the reply's words. The token count is the reported total, or 0 when there is no usage metadata. On failure, the failure is quota exactly when the message mentions RESOURCE_EXHAUSTED or 429. |
| Batch.ExitStatus | gemini-translate.py:45-131 | The exit status is 0 exactly when the run completes, and 1 on every exit: quota (line 45), other translation errors (line 48), the output file not created (line 105), the uncaught `IndexError` from `iloc` (line 116) and the handler at line 131. |
| Batch.Bootstrap | gemini-translate.py:86-105 | Start-up fails exactly when the file is absent and cannot be created. A created file holds only the header `context, id, context_my`, with an empty completed set. A readable file gives the set of its `context` column. An unreadable file gives the empty set. An existing file is never rewritten. |
| Batch.Contexts | gemini-translate.py:89 | `set(translated_df['context'])`: the texts of the output rows. `Batch.Bootstrap` uses it for a readable file, and `BatchProperties.ContextsGrow` shows that appending rows keeps the old texts and adds the new ones. |
| Batch.ExitFor | gemini-translate.py:41-48 | A quota failure exits through the quota branch (`QuotaExceeded`) and any other failure through the generic branch (`TranslationError`). `BatchProperties.AttemptTranslates` and `BatchProperties.RunStopsOnFailure` show that the run stops for quota exactly when `translate` reported quota exhaustion. |
| Batch.Apply | gemini-translate.py:119-140 | The loop's state update after a step that does not stop the run. A skip adds one to `skipped_count`. A translated row adds one to `processed_count` and its tokens to `total_token_usage` before the write, and adds the row to the file only when the write succeeds. `BatchProperties.ApplyTallies`, `BatchProperties.RunCounters` and `BatchProperties.RunAppendsOnly` give its meaning. |
| Batch.RangeEnd | gemini-translate.py:107-115 | `min(end, total_rows)`, with `end` defaulting to the row count. Its meaning is given by `BatchProperties.RunVisitsRange`: the run visits exactly the indices from `start` up to this bound. |
| Batch.RowAt | gemini-translate.py:116 | `df.iloc[index]`: a negative index counts from the end, and an index out of range yields no row. `BatchProperties.AttemptSkips` and `BatchProperties.RunSkipsCompleted` show that no row means the run stops with an index error. |
| Batch.Attempt | gemini-translate.py:116-144 | The loop body at one index. `BatchProperties.AttemptSkips` and `BatchProperties.AttemptTranslates` state what it does in each case, and `Batch.Visit` is proved to do the same. |
| Batch.Loop | gemini-translate.py:115-144 | The loop from a given index, in recursive form. `BatchProperties.LoopKeeps` proves its log is a trace of `Attempt` steps with the rows and counters tallied from it, and `BatchProperties.LoopIgnoresDoneRows` that it consults `translate` only for pending rows. |
| Batch.RunSpec | gemini-translate.py:86-150 | Start-up followed by the loop. `Batch.Run` is proved to compute it; `BatchProperties.RunFacts` and the `Run…` lemmas below state its meaning. |
| Batch.Via | gemini-translate.py:125 | The `translate` that `main` calls: the real prompt sent to the remote service and the reply turned into an outcome. `BatchProperties.RunWithService` states what a run with it stores and why it stops. |
| Batch.Visit | gemini-translate.py:116-140 | The loop body up to the counter updates: it looks the row up, applies the skip test, translates, and decides whether the append succeeds, exactly as `Attempt` specifies for that index. The append itself happens in `Batch.Run`. |
| Batch.Run | gemini-translate.py:86-150 | The imperative start-up and loop, with its counters and appended rows, produce exactly the report `RunSpec` defines. |
| BatchProperties.AttemptSkips | gemini-translate.py:116-121 | At one index: it stops with an index error exactly when `iloc` has no row, and it skips exactly when the row exists and its text is in the completed set. |
| BatchProperties.AttemptTranslates | gemini-translate.py:123-144 | At a pending index: the row is translated exactly when `translate` succeeds, and then the output row is (text, id, translation) with the reported tokens. A failure stops the run with the matching reason. |
| BatchProperties.LoopKeeps | gemini-translate.py:115-144 | The loop's log is a trace of per-index steps, and its rows and counters agree with that log. It completes after every index in the range, or stops at its last log entry for that entry's reason. |
| BatchProperties.LoopIgnoresDoneRows | gemini-translate.py:119-125 | The loop consults `translate` only for pending rows. |
| BatchProperties.RunFacts | gemini-translate.py:86-150 | A run that starts up has a trace for its log. Its file is the header plus the old rows plus the appended rows, and its counters tally the log. It completes having visited the whole range, or exits at its last entry. |
| BatchProperties.CountsWithoutAbort | gemini-translate.py:119-127 | On a log with no stop, the skipped count plus the processed count is the number of entries. |
| BatchProperties.RunOutputNotCreated | gemini-translate.py:95-105 | Exit 1 at start-up happens exactly when the file is absent and cannot be created. Nothing is visited, counted or written then. |
| BatchProperties.RunVisitsRange | gemini-translate.py:107-115 | The indices visited are `start, start+1, …` in ascending order, all below `min(end, total_rows)`, with `end` defaulting to the row count. A completed run visited all of them. None is visited when `start` is not below the bound. |
| BatchProperties.RunSkipsCompleted | gemini-translate.py:116-121 | An index is skipped exactly when its row's text is in the set read at start-up, which the loop never changes. An index stops the run with an index error exactly when `iloc` has no row for it. |
| BatchProperties.RunIgnoresDoneRows | gemini-translate.py:119-125 | Two runs whose `translate` agree on the pending rows are the same run, so a done row is never sent for translation. |
| BatchProperties.RunCounters | gemini-translate.py:111-131 | The counters are the number of translated rows, the number of skipped rows and the sum of the returned token counts. Each translated row pairs the row's text and ids with what `translate` returned. On completion, processed plus skipped equals the number of visited indices. |
| BatchProperties.RunAppendsOnly | gemini-translate.py:133-144 | The file keeps its header and its earlier rows, and gains one row at the end per successful write, in index order. A failed write adds nothing, but its row still counts as processed. |
| BatchProperties.RunStopsOnFailure | gemini-translate.py:124-131 | A failed translation exits 1 at the last visited index. No earlier index stopped, the failed row was pending, and the reason is quota exactly when `translate` said so. The rows already written are kept. |
| BatchProperties.RunWithService | gemini-translate.py:21-49 | With the real prompt and the remote service: a translated row holds `clean_text` of a response (clean, with the response's words) and the reported or zero token count. A stop comes from a raised exception, classed as quota exactly when it mentions RESOURCE_EXHAUSTED or 429. |
| BatchProperties.ContextsGrow | gemini-translate.py:134-140 | Appending rows keeps every text already in the file's `context` column and adds the appended rows' texts. |
| BatchProperties.WrittenIsAppended | gemini-translate.py:133-140 | Every row whose write succeeded is among the appended rows. |
| BatchProperties.DoneAfterRun | gemini-translate.py:119-140 | On a readable or newly created file, after a run whose writes all succeeded, every index it visited without stopping has its text in the output file. |
| BatchProperties.AllSkippedCounts | gemini-translate.py:119-121 | A log of skips only has that many skips, no processed rows, no tokens and no appended rows. |
| BatchProperties.RerunSkipsAll | gemini-translate.py:86-121 | On a readable or newly created file, run the same range again on the file a completed run left, with all its writes successful: every visited index is skipped. |
| BatchProperties.RerunIsNoOp | gemini-translate.py:86-150 | On a readable or newly created file, after a completed run whose writes all succeeded, a second run over the same range completes and leaves the file unchanged. It processes nothing, uses no tokens, and skips as many rows as the first run processed plus skipped. |
| BatchProperties.ResumeSkipsPrefix | gemini-translate.py:86-121 | On a readable or newly created file, after a run that stopped with every write succeeding, the second run skips every index before the one where the first stopped. |
| BatchProperties.ResumeAfterFailure | gemini-translate.py:86-150 | On a readable or newly created file, after a run stopped by a failed translation, with its writes successful, the next run skips everything before the failed index and reaches that index again. The file only grows. |
| BatchProperties.AppendedComesFromLog | gemini-translate.py:133-140 | Every appended row is the output row of some translated log entry. |
| BatchProperties.TracePrefix | gemini-translate.py:115 | Dropping the last step of a loop trace leaves a loop trace. |
| BatchProperties.ProcessedTextIsNew | gemini-translate.py:119-140 | A row translated at the end of a trace has a text that no earlier row of the file has, provided the file's texts are already in the completed set and the source texts of the range are distinct. |
| BatchProperties.TraceKeepsTextsDistinct | gemini-translate.py:119-140 | Along a trace, appending keeps the file's texts pairwise distinct when the file's texts are already in the completed set and the visited source texts are distinct. |
| BatchProperties.RunKeepsTextsDistinct | gemini-translate.py:86-150 | A readable (or newly created) file with no repeated text has none after a run whose visited source texts are distinct. |
| BatchProperties.AppendedInOrder | gemini-translate.py:133-140 | Two written log entries are appended in log order, at two different positions. |
| BatchProperties.RepeatedTextInFile | gemini-translate.py:133-140 | Two written entries with the same text leave that text twice in the file. |
| BatchProperties.RunRepeatsSharedText | gemini-translate.py:119-140 | In any run, two visited rows that share a text are both skipped or both not skipped. The earlier one is then translated. When both are translated and written, the file holds that text twice, because the completed set is read only once and never updated. |
| BatchProperties.DuplicateTextTranslatedTwice | gemini-translate.py:119-140 | For example, a two-row table whose rows share the text "hello", run against a fresh output file with every call and write succeeding, ends with exactly those two translated rows. |

## Left out

- All console output is not modelled, including the warning about missing
  usage metadata, the progress lines and the final summary.
- `sys.exit` is modelled as an outcome value rather than process termination.
- Command-line parsing, `.env` loading and the API-key check are not
  modelled.
- Reading the input CSV and the input-existence check (lines 53-84) are not
  modelled. The input is a sequence of `(context, ids)` rows.
- pandas type inference and NaN/None cells are not modelled. The CSV module's
  quoting and encoding are not modelled either, and the output file is
  assumed to read back exactly as written.
- The Gemini client and `generate_content` call are a network call. Their
  answer is the `Reply` parameter.
- An exception while constructing the client (line 23, outside the `try`) is
  not modelled separately. It reaches `main`'s handler at lines 128-131 and
  also exits with status 1, the same as the modelled `TranslationError`.
- A response whose text, usage metadata or token total is `None` is not
  modelled separately. The script then raises in one of three places:
  - `strip` on a `None` text (line 32);
  - reading `.total_token_count` from `None` usage metadata (line 35);
  - adding a `None` token total to the running total (line 127).

  The first two raise inside `translate`'s `try`, so their messages are
  classified as the model's `Raised` replies are. The third is caught by
  `main`'s handler at lines 128-131 and also exits with status 1. The model
  covers all three only as a raised exception.
- An existing output file is assumed to have the script's own column order,
  `context, id, context_my`. The model reads the completed set from the first
  field of every row, whatever the header says. pandas selects the column by
  name (line 89), so a file with `context` in another position would give a
  different completed set.
- `Batch.Run` returns the output file as a value instead of appending to a
  file on disk. Each write is either the whole row or nothing (`writeOk`), so
  a partly written row is not modelled.
- Some behaviours of the script differ from what a reader of a resumable
  batch translator might expect. The model follows the code:
  - Repeated texts: one might expect the output's `context` column never to
    repeat. The code reads the completed set once, so two source rows with
    the same new text are both translated and both appended
    (`RunRepeatsSharedText`). The column is guaranteed free of repeats under the
    conditions of `RunKeepsTextsDistinct`.
  - Rerun skip count: one might expect a rerun to skip as many rows as the
    first run processed. The code skips as many as the first run processed
    plus skipped (`RerunIsNoOp`).
  - Counter order: one might expect a row to count as processed only once it
    is written. The code increments `processed_count` and the token total
    before the write, so a row whose write fails still counts.
  - Negative `start`: pandas `iloc` wraps a negative index around, so the same
    source row can be visited twice in one run. An index below `-len(df)`
    raises an uncaught `IndexError` and exits with status 1 (`RowIndexError`).
- An unreadable existing output file gives an empty completed set. Every row
  in range is then translated again and appended after the existing content,
  so the no-repeat property of `RunKeepsTextsDistinct` needs a readable (or
  newly created) file.
