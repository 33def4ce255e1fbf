# Guarded text-to-SQL session and Unicode symbol cleaner, in Dafny

This project models two small Python tools.

The first is an interactive analysis session over a spreadsheet loaded into DuckDB. A language model turns each question into SQL. Before the statement runs, the tool applies three pieces of string logic:

- the markdown fence extractor `strip_sql_markdown` pulls the statement out of the model's reply;
- the safety gate `is_safe_query` blocks any statement whose upper-cased text contains INSERT, UPDATE, DELETE, DROP, ALTER or CREATE;
- the limit enforcer `enforce_limit` appends ` LIMIT 10;` when the upper-cased text holds no `LIMIT`.

The model also covers the branch structure of `generate_summary` and the `__main__` question loop.

The second tool is the whitelist filter of `deep_clean_text`. It decomposes text, keeps the characters whose Unicode category is a letter, number, punctuation or separator, plus `\n`, `\r` and `\t`, and then recomposes. The model also covers the rules `run_cleaner` uses to pick `.md`/`.txt` files and to mirror them into the output tree.

Modules:

- `Text` (text.dfy): Python's whitespace table, `str.strip()`, ASCII case mapping and substring search.
- `Fence` (fence.dfy): the extractor. It is a direct scan: the leftmost opening fence, a greedy word-character tag, greedy whitespace, then the first closing fence. The scan is proved to agree with the try-every-start search of `re.search`.
- `Guard` (guard.dfy): the gate and the limit enforcer.
- `Session` (session.dfy): the summariser's branches and the question loop. The loop is a method over the typed lines, proved against the specification function `Session`. The language model and DuckDB are function-valued fields of `Services`.
- `Cleaner` (cleaner.dfy): the filter loop, proved against the specification function `Filtered`. NFD, NFC and the category database are function-valued fields of `UnicodeTables`.
- `CleanerRun` (cleaner_run.dfy): the path rules and the `run_cleaner` loop over a given walk.
- `Wrappers` (wrappers.dfy): `Option`.

Two behaviours of the code are easy to misread:

- `enforce_limit` uses `rstrip(";")`. It removes every trailing `;`, not just one, and does not re-insert a terminator before the clause; the clause brings its own `;`. Trailing whitespace is not removed, so `"SELECT 1;\n"` becomes `"SELECT 1;\n LIMIT 10;"`.
- `execute_query` at line 309 has no handler around it. A DuckDB error ends the loop (`ExecutionRaised`) rather than ending only the turn.

The gate and the limit test are substring heuristics, and the model keeps them as such:

- a column `created_at` blocks a harmless SELECT;
- a column `unlimited` suppresses the bound;
- a statement the keyword list does not name, such as `COPY` or `ATTACH`, passes the gate.

## Model

| member | source | states |
|---|---|---|
| Text.Upper | smart_excel_csv_analysis_tool.py:174 | `upper()` keeps the length and maps each ASCII lower-case letter to its capital, leaving every other character alone |
| Text.Lower | smart_excel_csv_analysis_tool.py:296 | `lower()` keeps the length and maps each ASCII capital to its lower-case letter, leaving every other character alone |
| Text.UpperOfLower | smart_excel_csv_analysis_tool.py:174 | upper-casing forgets any earlier case change: `upper(lower(s)) == upper(s)` |
| Text.Contains | smart_excel_csv_analysis_tool.py:175 | the `in` test on strings holds exactly when the needle occurs at some index |
| Text.Strip | smart_excel_csv_analysis_tool.py:99-100 | `strip()` returns a string no longer than its input that neither starts nor ends with Python whitespace |
| Text.StripUnique | smart_excel_csv_analysis_tool.py:99-100 | whitespace-only margins around a slice with non-space ends make that slice the result of `strip()` |
| Text.StripIdempotent | smart_excel_csv_analysis_tool.py:99-100 | stripping twice is stripping once |
| Fence.FindFence | smart_excel_csv_analysis_tool.py:96 | finds the leftmost three backticks at or after a position, or reports that there are none |
| Fence.BodyStart | smart_excel_csv_analysis_tool.py:96 | the greedy tag and whitespace after an opening fence contain no backtick, so they never eat into a closing fence |
| Fence.LocateBlock | smart_excel_csv_analysis_tool.py:96-97 | a located match has the leftmost opening fence, the greedy tag, the greedy whitespace and the first closing fence after them |
| Fence.LocateBlockComplete | smart_excel_csv_analysis_tool.py:96-97 | any positions meeting that description are the match located, so the match is unique |
| Fence.SearchFrom | smart_excel_csv_analysis_tool.py:97 | the reference search of `re.search`: try the pattern at each start position from left to right; at three backticks it matches when a fence follows the greedy tag and whitespace, capturing up to the first such fence |
| Fence.LeftmostOpeningDecides | smart_excel_csv_analysis_tool.py:96-97 | the scan gives the same group as trying the pattern at every start position in turn, as `re.search` does |
| Fence.BacktrackingCannotHelp | smart_excel_csv_analysis_tool.py:96-97 | a shorter tag or whitespace run that the engine may backtrack to reaches the same closing fence as the greedy one |
| Fence.StripSqlMarkdown | smart_excel_csv_analysis_tool.py:95-100 | the result never starts or ends with whitespace |
| Fence.ExtractsFirstFencedBlock | smart_excel_csv_analysis_tool.py:95-99 | given the positions of the match (the leftmost opening fence, the end of its greedy tag, the end of the whitespace after it, and the first fence after that), the result is the trimmed text between the end of the whitespace and that fence |
| Fence.FencePairHasMatch | smart_excel_csv_analysis_tool.py:96-99 | a fence followed, at least three characters later, by another fence always gives a match, whose opening fence is at or before the first and whose closing fence is at or before the second; with `WithoutFencePairKeepsText` this covers every input |
| Fence.WithoutFencePairKeepsText | smart_excel_csv_analysis_tool.py:100 | with no two fences far enough apart to match, the result is the trimmed input |
| Fence.TaggedBlockExample | smart_excel_csv_analysis_tool.py:95-99 | a `sql`-tagged block around `SELECT 1` gives `SELECT 1` |
| Fence.GreedyTagExample | smart_excel_csv_analysis_tool.py:96-99 | the greedy tag swallows the first word of an untagged block: "```SELECT 1```" gives `1` |
| Fence.MatchResultHasNoFence | smart_excel_csv_analysis_tool.py:96-99 | the result of a match contains no three backticks |
| Fence.WindowBlock | smart_excel_csv_analysis_tool.py:96-97 | whitespace padding on either side of a string neither creates nor moves a match, and the group stays the same |
| Fence.PreStripIsRedundant | smart_excel_csv_analysis_tool.py:216 | trimming the reply before extracting changes nothing |
| Fence.StripSqlMarkdownIdempotent | smart_excel_csv_analysis_tool.py:95-100 | extracting from an extracted statement gives it back unchanged |
| Guard.IsSafeQuery | smart_excel_csv_analysis_tool.py:172-175 | the gate: a statement passes when none of INSERT, UPDATE, DELETE, DROP, ALTER and CREATE is a substring of its upper-cased text |
| Guard.UnsafeIffKeywordOccurs | smart_excel_csv_analysis_tool.py:172-175 | a statement is blocked exactly when a forbidden keyword matches at some position, ignoring case, including inside identifiers and literals |
| Guard.SafetyIgnoresCase | smart_excel_csv_analysis_tool.py:174 | lower-casing a statement does not change the gate's verdict |
| Guard.CreatedAtColumnIsBlocked | smart_excel_csv_analysis_tool.py:172-175 | any statement that mentions an identifier `created_at` is blocked, whatever surrounds it |
| Guard.NatDigitsRoundTrip | smart_excel_csv_analysis_tool.py:180 | the digits written for the bound read back as the bound |
| Guard.TrimSemicolons | smart_excel_csv_analysis_tool.py:180 | `rstrip(";")` leaves a prefix that does not end in `;` and drops only semicolons |
| Guard.ClauseHasLimit | smart_excel_csv_analysis_tool.py:180 | any text followed by the appended clause names `LIMIT` |
| Guard.HasLimit | smart_excel_csv_analysis_tool.py:179 | the test that skips bounding: `LIMIT` is a substring of the upper-cased statement |
| Guard.EnforceLimit | smart_excel_csv_analysis_tool.py:178-181 | a statement already naming `LIMIT` is returned unchanged; otherwise the result is the statement with every trailing `;` removed, followed by ` LIMIT <n>;`; either way the result names `LIMIT` |
| Guard.EnforceLimitIdempotent | smart_excel_csv_analysis_tool.py:179-181 | a second pass changes nothing, whatever bound it is given |
| Guard.LimitedColumnSuppressesBound | smart_excel_csv_analysis_tool.py:179 | any statement that mentions an identifier `unlimited` is returned unchanged, without a bound |
| Guard.OnlySemicolonsTrimmed | smart_excel_csv_analysis_tool.py:179-180 | a statement without `LIMIT` that does not end in `;` is kept whole, and the clause is appended to it |
| Guard.TrailingNewlineIsKept | smart_excel_csv_analysis_tool.py:179-180 | a statement without `LIMIT` that ends in `;` and a newline keeps both, and the clause follows the newline (`"SELECT 1;\n"` becomes `"SELECT 1;\n LIMIT 10;"`) |
| Guard.DefaultClause | smart_excel_csv_analysis_tool.py:178-180 | the clause for the default bound is ` LIMIT 10;` |
| Guard.KeywordInBounded | smart_excel_csv_analysis_tool.py:175-180 | a forbidden keyword in a bounded statement already occurs in the part kept from the original |
| Guard.EnforceLimitPreservesSafety | smart_excel_csv_analysis_tool.py:172-181 | bounding a statement that passed the gate gives one that still passes it |
| Session.SynthesizeSql | smart_excel_csv_analysis_tool.py:216 | the candidate is the extractor applied to the model's raw reply |
| Session.Preview | smart_excel_csv_analysis_tool.py:227 | `head(10)` has min(10, n) rows, the first ones, in order |
| Session.GenerateSummary | smart_excel_csv_analysis_tool.py:223-254 | an empty result gets the fixed reply; otherwise the model is shown the preview and its reply is trimmed |
| Session.EmptyResultSkipsModel | smart_excel_csv_analysis_tool.py:224-225 | an empty result yields exactly "No records matched the query.", whatever the model would answer |
| Session.SummaryDependsOnlyOnPreview | smart_excel_csv_analysis_tool.py:227-254 | two results that agree on their first min(10, n) rows give the model the same prompt: the same question and the same preview rows |
| Session.IsExit | smart_excel_csv_analysis_tool.py:296 | the stop test: the lower-cased line equals `exit` |
| Session.ExitInAnyCase | smart_excel_csv_analysis_tool.py:296 | a line ends the loop exactly when it has four characters that lower-case, one by one, to `e`, `x`, `i`, `t`, so any mix of cases of `exit` ends it and nothing else does |
| Session.ExitSpellings | smart_excel_csv_analysis_tool.py:296 | `exit`, `EXIT`, `Exit` and `eXiT` all end the loop |
| Session.TakeTurn | smart_excel_csv_analysis_tool.py:299-317 | one loop body: the candidate is the extracted reply; it is blocked when the gate refuses it; otherwise it is bounded and executed, and the turn either fails with the raised message or summarises the rows returned |
| Session.TurnExecutesSafeStatement | smart_excel_csv_analysis_tool.py:301-309 | what a turn executes passes the gate and names `LIMIT` |
| Session.Run | smart_excel_csv_analysis_tool.py:293-317 | the loop over the typed lines for a given loop body: it ends when input runs out or at an `exit` line, ends after a turn that raised, and otherwise goes on with the next line |
| Session.Session | smart_excel_csv_analysis_tool.py:293-317 | the whole session with the given collaborators: `Run` with `TakeTurn` as the loop body |
| Session.RunFollowsLines | smart_excel_csv_analysis_tool.py:293-317 | the turns answer the typed lines one by one and in order, and none of those lines is `exit` |
| Session.RunEnding | smart_excel_csv_analysis_tool.py:293-317 | only the last turn can have raised; an `exit` ending stops at an `exit` line; exhausted input means every line was answered |
| Session.ExitStopsSession | smart_excel_csv_analysis_tool.py:296-297 | no line at or after an `exit` is acted on |
| Session.SessionExecutesOnlySafeStatements | smart_excel_csv_analysis_tool.py:299-309 | a blocked candidate is never executed, and every executed statement passed the gate and names `LIMIT` |
| Session.SessionLogIsSafe | smart_excel_csv_analysis_tool.py:299-309 | every statement in the log of what a whole session hands to `execute_query` passed the gate and names `LIMIT` |
| Session.QuestionLoop | smart_excel_csv_analysis_tool.py:293-317 | the loop produces exactly the turns and the ending of the specification `Session`; the statements it hands to `execute_query`, in order, are those of its executed turns, and each passed the gate and names `LIMIT` |
| Cleaner.Filtered | rm_emojies.py:117-124 | the filter's output is no longer than its input, and every character it keeps passes the category-or-control test |
| Cleaner.KeptIndices | rm_emojies.py:117-124 | lists, in ascending order, every position whose character passes the test, and no other position |
| Cleaner.FilteredIsKeptSubsequence | rm_emojies.py:117-124 | the output is the input read at exactly those positions, so nothing else is dropped or reordered |
| Cleaner.FilteredCounts | rm_emojies.py:117-124 | each character appears in the output as often as in the input if it passes the test, and never otherwise |
| Cleaner.ControlsSurvive | rm_emojies.py:115-123 | every `\n`, `\r` and `\t` survives, whatever its category |
| Cleaner.FilterKeepsAllowed | rm_emojies.py:117-124 | text whose every character passes the test is left unchanged |
| Cleaner.FilterIdempotent | rm_emojies.py:112-124 | filtering the output again changes nothing |
| Cleaner.FilterAppend | rm_emojies.py:117-124 | filtering a concatenation is concatenating the filtered parts |
| Cleaner.KeycapKeepsDigit | rm_emojies.py:103-124 | the keycap sequence for "8" (Nd, Mn, Me) filters to `8` |
| Cleaner.CleanText | rm_emojies.py:98-128 | what `deep_clean_text` returns: the NFC composition of the filtered NFD decomposition |
| Cleaner.DeepCleanText | rm_emojies.py:98-128 | the loop builds exactly the filtered decomposition, which is then recomposed |
| CleanerRun.LastDot | rm_emojies.py:147 | finds the index of the last `.`, or -1 when there is none |
| CleanerRun.Suffix | rm_emojies.py:147 | `PurePath.suffix`: the name from its last dot on, or empty when there is no dot or the last dot is the first or the last character |
| CleanerRun.SuffixSplits | rm_emojies.py:147 | a non-empty suffix is a dot, at least one more character and no other dot, after a non-empty stem |
| CleanerRun.IsCleanable | rm_emojies.py:147 | the selection test: a regular file whose lower-cased suffix is `.md` or `.txt` |
| CleanerRun.SelectionExamples | rm_emojies.py:147 | `README.MD` and `a.b.txt` are selected; `data.csv`, the dot-file `.md` and a directory are not |
| CleanerRun.RelativeTo | rm_emojies.py:149 | `relative_to` succeeds exactly when the base is a prefix, and then base plus result is the path |
| CleanerRun.Destination | rm_emojies.py:149-150 | the destination `base_out / relative_path`, or nothing when the path is not under `base_in` |
| CleanerRun.MirrorsHierarchy | rm_emojies.py:149-150 | a file at `base_in / rel` is written to `base_out / rel` |
| CleanerRun.MirrorIsInjective | rm_emojies.py:149-150 | distinct files get distinct destinations |
| CleanerRun.Outcome | rm_emojies.py:147-167 | what one loop iteration writes: for a selected file that could be read and written, one copy of its cleaned text at its destination, and nothing otherwise |
| CleanerRun.Plan | rm_emojies.py:144-167 | the copies the loop writes over the whole walk: the outcomes of the entries, concatenated in walk order |
| CleanerRun.PlanWritesOnlyCleanable | rm_emojies.py:144-167 | every copy written comes from a readable regular `.md`/`.txt` file, sits at its mirrored place and holds its cleaned text |
| CleanerRun.PlanWritesEveryCleanable | rm_emojies.py:144-167 | every readable regular `.md`/`.txt` file of the walk gets its cleaned copy |
| CleanerRun.RunCleaner | rm_emojies.py:144-167 | the loop writes exactly the planned copies in walk order, and the count it reports is their number |

## Left out

- Fence.StripSqlMarkdown: the tag run `(?:\w+)?` uses ASCII word characters only. Python's `\w` on `str` also takes non-ASCII letters and digits, so a reply whose fence is directly followed by one of those is modelled with a shorter tag.
- Text.Upper: upper-cases ASCII letters only. Python's `str.upper()` also maps `ı` to `I` and `ſ` to `S` and lengthens `ß` to `SS`, so the real gate blocks a few statements the model lets through (for example one spelling `ınsert`).
- Text.Lower: lower-cases ASCII letters only. For the `exit` test this is exact, since no other character lower-cases to exactly one ASCII letter of `exit` (`İ` becomes `i` plus a combining dot, so `EXİT` does not match).
- The language model calls, their prompts and the token accounting are the opaque `sqlReply` and `summaryReply` fields of `Services`. An exception raised by a model call is not modelled.
- The replies and the results are fixed functions of the prompt or the statement: `sqlReply`, `summaryReply` and `execute` are pure functions. The model does not capture that the summary call samples at temperature 0.2 (smart_excel_csv_analysis_tool.py line 248), so the same prompt can get different replies, nor that the DuckDB database in `temp_data.duckdb` keeps its state between turns, so a statement that passes the gate and changes the data (`COPY ... FROM`, say) changes what a later identical statement returns.
- Session.SummaryDependsOnlyOnPreview: its second clause, equal summaries, holds only under this fixed-reply reading; what holds of the program is its first clause, the same prompt.
- DuckDB is the opaque `execute` field. The file loading, the cleaning of columns, the metadata and schema queries and the DDL path (`generate_create_table_sql`, `process_file`) are not part of this model.
- `result_df.empty` also holds for a frame with rows but no columns. A SELECT result always has columns, so the model represents a result by its rows only.
- Prints, the console prompt text and the start-up configuration are not modelled. The end of input (`EOFError` from `input()`) is the `InputExhausted` ending; an interrupt is not modelled.
- Unicode NFD, NFC and the category database are the opaque fields of `UnicodeTables`, so every cleaner property holds for any tables.
- CleanerRun.RunCleaner: the walk (`rglob`), `resolve()`, the `is_dir` check with `sys.exit`, `mkdir` and the UTF-8 decoding with replacement are file-system behaviour and are given as data. The entry's `contents` being `None` stands for an exception raised by the read, the cleaning or the write (lines 157-163), before anything is written. The prints at lines 164 and 167 are assumed not to raise: one that raises at 164 (a path that cannot be encoded for the console) leaves a written copy uncounted, and one at 167 ends the run. A write that fails after a partial write is not modelled, and neither is an error raised by `mkdir` (line 153, outside the `try`).
- The argument parsing in `main` and the commented-out first version of the cleaner (rm_emojies.py lines 1-91) are not modelled.
