# A persistent chained hash index over a CSV of papers, in Dafny

This project models the core of a small C system that searches a CSV file of research
papers by title. Its real logic is a persistent hash index. `build_index` streams the
CSV once and writes an index file: a header, a table of `N_BUCKETS` chain heads, then
an append-only region of fixed-size entries. Each entry holds a key, the byte offset
of its CSV line and the offset of the next entry of its bucket. Two searchers walk
the chains of a window of buckets around the query's home bucket:

- `search_by_keyword` in `index2.c` supports exact and substring modes.
- `search_by_title_and_update` in `p1-search.c` applies an optional update-date filter
  on column 12 and packs the accepted lines into a bounded response buffer.

The model also covers the text helpers those searches use:

- `ci_strcasestr`, `trim_inplace`, `limpiar_texto`, `field_is` and `csv_get_column`.
- The date validator of the console program and the state machine of its menu.

The index file is an arena, held by `Builder.IndexFile`:

- a header value;
- an `array<int>` of bucket heads;
- a growing sequence of entries.

A link is a byte offset `EntryBase + EntrySize * e`, or the sentinel `-1`. The
`sizeof` values are constants of an LP64 platform (24, 8 and 272 bytes), and the
model fixes those values. The CSV file is one string, read a line at a time by
`RecordStore.ReadLine`, which stands for `fseek` + `fgets`.

`hash_string` lives in `hash.c`, which is not part of this model. Every operation
takes it as a parameter `hash: string -> nat`. The builder and the searchers get the
same function, so the two sides agree as the design requires.

`p1-search.c` has its own static copy of `ci_strcasestr`, the same text as the one in
`index2.c`, and its own static copy of `trim_inplace`, the same text as the one in
`p1-dataProgram.c`. The model defines each helper once (in module `Text`) and every
file that has a copy uses it.

The model follows the code where it differs from the design description:

- The builder splits the line with `strtok` on `",\n\r"`, not with `csv_get_column`.
  Empty fields therefore vanish and quotes are ordinary characters
  (`KeyText.EmptyFieldVanishes`).
- A key that `limpiar_texto` cleans to the empty string is still indexed.
- `build_index` writes the header and the bucket table before it finds out that the
  CSV is empty, and then returns `-1`.
- `search_by_keyword` uses the compile-time `N_BUCKETS`. `search_by_title_and_update`
  uses the header's bucket count, or `N_BUCKETS` when that count is not positive.
- `search_by_keyword` counts a match even when its CSV line cannot be read, so such a
  match takes a place under the cap of 50 and prints nothing
  (`KeywordSearch.Printed`). The worker counts only lines it appends.
- The builder hashes the full cleaned key but stores only its first 255 characters.
  An exact search for a longer key therefore never matches its own entry
  (`KeywordSearch.LongKeyMissedByExactSearch`).

The main results hold for all inputs:

- `Builder.IndexedLinesAreLines` and `Builder.IndexedLinesComplete` together say the
  index holds exactly the key-bearing lines after the header.
- `KeywordSearch.LineIsFound` is the index round trip over the CSV's lines.
- `Csv.ColumnOfRecord` and `Csv.CsvGetColumn` cover the column parser.
- `DataProgram.FullDateIsCalendarDay` covers the date validator.

Lemmas about one concrete input (`DataProgram.LeapExamples`, the `LeapDayOf*` lemmas
and the `a,,b`-style `Csv` lemmas) document the individual cases the code handles.

## Model

| member | source | states |
|---|---|---|
| `Text.CiStrStr` | index2.c:17-27 | An empty needle is found at 0. Otherwise the result is the first position where the needle matches ASCII-case-insensitively, and `None` exactly when no position matches. |
| `Text.CiStrStrIsLowerFind` | p1-search.c:45-55 | `ci_strcasestr` equals an independent reference: the first exact occurrence of the lower-cased needle in the lower-cased haystack. |
| `Text.TrimInPlace` | p1-search.c:58-65 | After the in-place edit, the buffer's C string is the old C string with its leading and trailing whitespace removed. |
| `Text.TrimIsMaximalStrip` | p1-dataProgram.c:38-45 | The trimmed text is a middle slice of the input. Everything cut before and after it is whitespace, and it neither starts nor ends with whitespace, so the strip is maximal. |
| `Text.TrimIdempotent` | p1-search.c:58-65 | Trimming twice gives the same result as trimming once. |
| `Text.LeadingSpaces` | p1-search.c:60-61 | The first loop of `trim_inplace` counts exactly the leading whitespace characters. |
| `Text.ChopTrailingSpaces` | p1-search.c:63-64 | Overwriting trailing whitespace with NULs leaves the string without its trailing whitespace. |
| `Text.DropFront` | p1-search.c:62 | `memmove(s, a, strlen(a)+1)` drops the first `a` characters from the C string. |
| `Text.MoveDown` | p1-search.c:62 | `memmove` towards the front: the first `count` characters become those at `from`, and the rest of the buffer is unchanged. |
| `Text.StrLen` | p1-search.c:63 | `strlen` finds the first NUL. No earlier character is a NUL. |
| `Text.CStrOfTerminated` | index2.c:84 | A buffer with its first NUL at `n` holds its first `n` characters as its C string. |
| `KeyText.LimpiarTexto` | index2.c:30-47 | The buffer ends up holding the key with at most one leading quote removed, then at most one trailing quote, then all trailing whitespace. |
| `KeyText.CleanedShape` | index2.c:30-47 | The cleaned key is never longer than the input. Leading whitespace is kept. The cut-off tail is whitespace, possibly followed by one quote. The result does not end in whitespace. |
| `KeyText.Terminate` | index2.c:37 | A NUL written at `n`, after `n` non-NUL characters, ends the C string after exactly those characters. |
| `KeyText.DropOpeningQuote` | index2.c:35-39 | A leading `"` is dropped by the `memmove` and the NUL at `len - 1`. Any other string is unchanged. |
| `KeyText.DropClosingQuote` | index2.c:40 | A final `"` is overwritten by a NUL. Any other string is unchanged. |
| `KeyText.Strtok` | index2.c:93-100 | One `strtok` call returns the next maximal run of non-delimiters and the position just past its delimiter, or nothing when only delimiters remain. |
| `KeyText.SkipDelims` | index2.c:93-98 | Skipping delimiters stops at the end or at a non-delimiter, and loses no token. |
| `KeyText.TokenEnd` | index2.c:93-98 | A token runs up to the first delimiter or the end of the line, and holds no delimiter. |
| `KeyText.FourthToken` | index2.c:93-101 | The builder's key is the fourth `strtok` token, and there is none for a line with fewer than four tokens. |
| `KeyText.TokensSplitAtDelim` | index2.c:93-100 | No token crosses a delimiter. |
| `KeyText.EmptyFieldVanishes` | index2.c:93-101 | An empty field yields no token, so the fields after it move one column to the left. |
| `KeyText.StoreKey` | index2.c:118-120 | The stored key is a `KEY_SIZE` buffer whose last byte is NUL. |
| `KeyText.StoredKeyReadsBack` | index2.c:118-120 | The stored key reads back as the key cut to `KEY_SIZE - 1` characters. |
| `KeyText.CleanKey` | index2.c:101-102 | Copying a token into a buffer and cleaning it there yields the cleaned key. |
| `IndexLayout.EntryIndex` | index2.c:124-128 | An offset decodes to an entry only when that entry exists at exactly that offset. |
| `IndexLayout.EntryOffsetsIncrease` | index2.c:124-128 | A later entry sits at a strictly greater file offset. |
| `IndexLayout.Chain` | index2.c:198-237 | A walk from `-1` is empty. A walk from an entry offset starts with that entry. |
| `IndexLayout.ChainShape` | index2.c:198-237 | A chain lists existing entries, each once, in strictly decreasing entry order, so every walk ends at `-1`. |
| `IndexLayout.ChainExtend` | index2.c:124-132 | Appending entries leaves every existing chain unchanged. |
| `IndexLayout.MembersExactly` | index2.c:104-105 | Entry `j` belongs to bucket `b` exactly when `hash(key_j) % N_BUCKETS == b`. |
| `IndexLayout.ProbeMembers` | index2.c:183-185 | The probed buckets are exactly the in-range ones within the window around `h`, each once, in ascending order. |
| `IndexLayout.Probe` | p1-search.c:170-172 | The window loop visits at most one bucket per offset. |
| `IndexLayout.VisitCovers` | index2.c:183-238 | The search inspects every entry of every probed chain. |
| `IndexLayout.VisitWithin` | index2.c:183-238 | The search inspects no entry outside the probed chains. |
| `IndexLayout.FilterMembers` | index2.c:211-219 | The matches are exactly the inspected entries that pass the test. |
| `RecordStore.ReadLine` | index2.c:221-223 | `fseek` + `fgets` at an offset gives the line that starts there, up to and including its line feed, and fails exactly for an offset outside the file. |
| `RecordStore.LineEnd` | p1-search.c:190 | `fgets` stops after the first line feed or at the end of the file. |
| `Builder.IndexFile.constructor` | index2.c:58-73 | A fresh index has the header `(N_BUCKETS, sizeof(IndexHeader), sizeof(IndexHeader) + N_BUCKETS * sizeof(BucketDisk))`, all heads `-1` and no entries. |
| `Builder.IndexFile.Insert` | index2.c:104-141 | The new entry stores the key, the line offset and the old bucket head. It is appended at the end of the file and becomes the head of its bucket. No other head changes, and the index invariant holds again. |
| `Builder.InsertKeepsBuilt` | index2.c:118-141 | Prepending keeps the arena linked and keeps each chain equal to the keys that hash to its bucket, newest first. |
| `Builder.BucketAfterInsert` | index2.c:118-141 | After an insertion each bucket's chain holds exactly the entries whose key hashes there. |
| `Builder.LinkedAfterAppend` | index2.c:122-141 | The new entry links only to an older entry or to `-1`. |
| `Builder.ChainsPartitionEntries` | index2.c:104-141 | Every entry hangs in the chain of its key's bucket and in no other chain. |
| `Builder.IndexLine` | index2.c:93-141 | A line with a fourth token adds one entry, with its cleaned key and its start offset. Any other line adds nothing. |
| `Builder.IndexLinesFrom` | index2.c:90-143 | After the reading loop, entry `j` records the start offset and key of the `j`-th key-bearing line from the first line read. The index invariant holds and the header is unchanged. |
| `Builder.BuildIndex` | index2.c:50-154 | An empty CSV gives status `-1` and anything else gives `0`. The header is fresh, the index invariant holds, and entry `j` records the start offset and key of the `j`-th key-bearing line after the header line. |
| `Builder.IndexedLinesAreLines` | index2.c:79-94 | The indexed lines are key-bearing lines after the header line, in file order. Each starts a line, and each reads back at its offset with the key it was indexed under. |
| `Builder.KeyedLinesComplete` | index2.c:90-101 | Every line the reading loop reaches from a position, and that has a fourth token, is among the keyed lines with its start offset and cleaned key. |
| `Builder.IndexedLinesComplete` | index2.c:79-101 | Converse of `IndexedLinesAreLines`: every line after the header line that has a fourth token is indexed, at its offset and under its cleaned key. |
| `Builder.KeyedLinesAdvance` | index2.c:90-92 | Each loop turn consumes exactly one line, and that line's keyed record if it has one. |
| `KeywordSearch.WindowIsNeighbourhood` | index2.c:177-185 | Exact mode probes only the home bucket. Substring mode probes the buckets `h-12..h+12` that lie in `[0, N_BUCKETS)`. |
| `KeywordSearch.HomeBucketProbed` | index2.c:180-185 | The home bucket is always probed. |
| `KeywordSearch.Capped` | index2.c:231-234 | The cap keeps the first 50 matches, or all of them when there are fewer. |
| `KeywordSearch.WalkChain` | index2.c:198-238 | Walking one chain appends its matches to the trace until 50 are counted. The printed lines are those of the traced matches. |
| `KeywordSearch.ProbeBucket` | index2.c:184-197 | One window step walks the chain of an in-range bucket and skips any other bucket. |
| `KeywordSearch.ProbeWindow` | index2.c:180-239 | The probing loop counts the matches of offsets `lo`..`hi` in order, capped at 50, and prints the lines of the counted matches. |
| `KeywordSearch.SearchByKeyword` | index2.c:157-254 | The count is the number of matches in window order capped at 50. The printed lines are those of the counted matches whose CSV line can be read. |
| `KeywordSearch.KeywordMatchesExactly` | index2.c:183-238 | On a built index, an entry matches exactly when its stored key passes the mode's test and its key hashes into a probed bucket. |
| `KeywordSearch.IndexedRecordIsFound` | index2.c:211-229 | Round trip: a record indexed under a key shorter than `KEY_SIZE` is a match of an exact or substring search for that key. Its line is printed whenever the cap is not reached. |
| `KeywordSearch.LineIsFound` | index2.c:90-229 | Round trip over the CSV: every line after the header whose cleaned fourth token is shorter than `KEY_SIZE` has an entry at its offset that a search for that key matches, and the line is printed whenever the cap is not reached. |
| `KeywordSearch.StoredKeyMatches` | index2.c:211-216 | A short key matches its own stored copy in either mode. |
| `KeywordSearch.LongKeyMissedByExactSearch` | index2.c:104-120 | A key of `KEY_SIZE` characters or more never exactly matches its own stored copy. |
| `KeywordSearch.PrintedAtMost` | index2.c:219-229 | Each counted match prints at most one line, so a match whose line cannot be read is counted without printing. |
| `KeywordSearch.ChainMatchesIsFilter` | index2.c:198-238 | Walking a chain and keeping its matches is the same as filtering the chain. |
| `KeywordSearch.IndexedKeyIsCString` | index2.c:93-102 | Keys derived by the builder hold no NUL. |
| `Csv.CsvGetColumn` | p1-search.c:68-118 | The method returns 1 and leaves `Column(line, target)` in `out` when the column exists. Otherwise it returns 0 with `out` empty. `out` is always NUL-terminated. |
| `Csv.Column` | p1-search.c:68-118 | A column value fits `out_sz` with its terminator and is already trimmed. |
| `Csv.ColumnFrom` | p1-search.c:71-115 | The walk advances a column only at a comma after a field, and stops at the end of the line. |
| `Csv.Unquote` | p1-search.c:73-86 | The quoted-field scan never moves backwards and always makes progress. |
| `Csv.CopyQuoted` | p1-search.c:74-87 | `""` decodes to `"`, the first lone quote ends the field, and at most `out_sz-1` decoded characters are written. |
| `Csv.SkipQuoted` | p1-search.c:103-109 | Skipping a quoted field stops just past its closing quote. |
| `Csv.SkipPlain` | p1-search.c:112 | An unquoted field runs to the next `,`, `\n`, `\r` or the end of the line. |
| `Csv.CopyPlain` | p1-search.c:93-96 | The unquoted value, cut to `out_sz-1`, is copied and terminated. |
| `Csv.ExtractField` | p1-search.c:72-99 | The target field is decoded or copied, cut to `out_sz-1` and trimmed. |
| `Csv.Finish` | p1-search.c:87-88 | Terminating and trimming leaves the trimmed text in `out`. |
| `Csv.ColumnOfRecord` | p1-search.c:73-89 | RFC 4180 section 2 round trip: in a record of quoted, quote-doubling fields, column `i` reads back as field `i`, cut and trimmed. No column exists before the first field or after the last. |
| `Csv.UnquoteEscape` | p1-search.c:76-86 | An escaped value followed by its closing quote decodes back to the value. |
| `Csv.EmptyLastField` | p1-search.c:71 | An empty last field (`a,`) is not a column. |
| `Csv.EmptyMiddleField` | p1-search.c:91-98 | An empty middle field (`a,,b`, column 2) is an empty column. |
| `Csv.FieldAfterEmpty` | p1-search.c:110-113 | The field after an empty one is the next column (`a,,b`, column 3 is `b`). |
| `Csv.QuotedPartIsValue` | p1-search.c:73-89 | For `"ab"cd`, the value is the quoted part `ab`. |
| `Csv.TextAfterClosingQuote` | p1-search.c:103-110 | Text after a closing quote is absorbed into the same column, so the next comma starts the next column. |
| `Worker.FieldIsIgnoresCaseAndSpaces` | p1-search.c:121-127 | For short names, `field_is` holds exactly when the trimmed field name equals the target up to case. |
| `Worker.TitleShape` | p1-search.c:262-273 | The title the worker extracts fits `KEY_SIZE`, holds no NUL and has no surrounding whitespace. |
| `Worker.UpdateShape` | p1-search.c:275-283 | The update date the worker extracts fits 64 bytes, holds no NUL and has no surrounding whitespace. |
| `Worker.TitleWindowShape` | p1-search.c:156-172 | The window uses the header's bucket count, or `N_BUCKETS` when that count is not positive. It probes at most 25 buckets, in ascending order, exactly those within 12 of the home bucket inside the table. |
| `Worker.DateMatches` | p1-search.c:192-199 | The date filter passes exactly when column 12 exists and equals the date up to case. |
| `Worker.AcceptEntry` | p1-search.c:187-200 | An entry is accepted exactly when its key contains the title, its line can be read and the line passes the date filter. The accepted line is the one the trace records. |
| `Worker.AppendLine` | p1-search.c:201-212 | A line is appended with a new terminator exactly when `used + len + 1 < resp_sz`. Otherwise the buffer is untouched. |
| `Worker.Offer` | p1-search.c:204-212 | An accepted line advances the collection by one step: it is appended and counted, or collecting stops. |
| `Worker.VisitEntry` | p1-search.c:183-218 | A rejected entry changes neither `found`, `used` nor the buffer. |
| `Worker.WalkTitleChain` | p1-search.c:179-219 | One chain walk offers the chain's accepted lines in order until collecting stops. The buffer stays NUL-terminated with `used < resp_sz`. |
| `Worker.ProbeTitleBucket` | p1-search.c:171-177 | One window step walks an in-range bucket and skips any other bucket. |
| `Worker.WalkTitleWindow` | p1-search.c:161-221 | The buffer ends up holding the collection of every accepted line of the window, in window order and then chain order. |
| `Worker.SearchByTitleAndUpdate` | p1-search.c:133-227 | `found` and the NUL-terminated buffer are the count and the text of the collection of the accepted candidates. |
| `Worker.CollectCounts` | p1-search.c:170-213 | `found` is at most 50 and at most the number of candidates. The text is the first `found` candidate lines one after another, and it fits the buffer with its terminator. |
| `Worker.CollectStops` | p1-search.c:204-212 | Collecting stops only after the 50th line or at the first line that does not fit. Before that, every candidate line is appended. |
| `Worker.CollectAbsorbs` | p1-search.c:211 | Once collecting stops, later candidates change nothing. |
| `Worker.Respond` | p1-search.c:262-299 | The response is "NA" for an empty title or a zero count, and the collected lines otherwise. |
| `Worker.AnswerIsLeadingCandidates` | p1-search.c:285-299 | The response is "NA" or the concatenation of the first 1 to 50 candidates, and it is shorter than `sizeof(Response.result)`. |
| `Worker.DateMatchingNothingAnswersNA` | p1-search.c:191-200 | If no readable line passes the date filter, the response is "NA" however many keys contain the title. |
| `Worker.FirstFittingCandidateAnswered` | p1-search.c:201-208 | When the first candidate fits, the response starts with it. |
| `DataProgram.IsLeapYear` | p1-dataProgram.c:70-75 | The three divisibility tests amount to the Gregorian rule `y%4==0 && (y%100!=0 \|\| y%400==0)`. |
| `DataProgram.LeapExamples` | p1-dataProgram.c:70-75 | 2000 and 2024 are leap years. 1900 and 2023 are not. |
| `DataProgram.ValidYmdFormat` | p1-dataProgram.c:77-103 | The result is true exactly when the text has length 10, `-` at indices 4 and 7, digits elsewhere, month 1..12 and day 1..`mdays`. |
| `DataProgram.YmdCoversShape` | p1-dataProgram.c:79-92 | Every text of the `YYYY-MM-DD` layout is the zero-padded writing of the year, month and day that `atoi` reads from it. |
| `DataProgram.YmdReadsBack` | p1-dataProgram.c:86-92 | A zero-padded date reads back as the numbers written. |
| `DataProgram.FullDateIsCalendarDay` | p1-dataProgram.c:93-102 | A written date is accepted exactly when its month is 1..12 and its day is 1..`mdays`: 30 for April, June, September and November, 29 or 28 for February by the leap rule, 31 otherwise. |
| `DataProgram.LeapDay` | p1-dataProgram.c:96-97 | 29 February is accepted exactly in leap years. |
| `DataProgram.LeapDayOf2000Accepted` | p1-dataProgram.c:93-102 | `2000-02-29` is accepted. |
| `DataProgram.LeapDayOf1900Rejected` | p1-dataProgram.c:93-102 | `1900-02-29` is rejected. |
| `DataProgram.LeapDayOf2023Rejected` | p1-dataProgram.c:93-102 | `2023-02-29` is rejected. |
| `DataProgram.CutAtLineEnd` | p1-dataProgram.c:181 | `input[strcspn(input, "\r\n")] = '\0'` keeps the text before the first line end. |
| `DataProgram.CleanEntry` | p1-dataProgram.c:181-182 | Cutting at the line end and trimming in place leaves `Entered` of the line, as options 1 and 2 both do (the date branch at p1-dataProgram.c:197-198). |
| `DataProgram.StrNCopy` | p1-dataProgram.c:184 | `strncpy` writes the string cut to `n`, pads with NULs up to `n` and leaves the rest of the buffer alone. |
| `DataProgram.StoreCriterion` | p1-dataProgram.c:184-185 | The buffer holds at most 255 characters of the input and ends in NUL. |
| `DataProgram.Menu.constructor` | p1-dataProgram.c:158-159 | Both criteria start empty. |
| `DataProgram.Menu.EnterTitle` | p1-dataProgram.c:173-186 | Option 1 stores the trimmed line, cut to 255 characters, as the title and leaves the date alone. |
| `DataProgram.Menu.EnterDate` | p1-dataProgram.c:187-207 | Option 2 leaves the date unchanged for a non-empty invalid entry. An empty entry clears the date and a valid one replaces it. The title is left alone. |
| `DataProgram.Menu.BuildRequest` | p1-dataProgram.c:208-228 | `field_name1` is "title" exactly when the title is set, and `field_name2` is "update_date" exactly when the date is set. Unused fields are empty. The worker reads back the same title (trimmed) and the same date. |
| `DataProgram.Menu.Step` | p1-dataProgram.c:172-268 | Option 1 edits the title, 2 edits the date, 3 sends a request that carries both, 4 quits, and any other number changes nothing. The date stays empty or valid. |
| `DataProgram.TitleReachesWorker` | p1-dataProgram.c:214-220 | The title of a request built by option 3 is what the worker searches for. |
| `DataProgram.DateReachesWorker` | p1-dataProgram.c:222-228 | The date of a request built by option 3 is the date the worker filters on. |

## Left out

- FIFO transport: the `mkfifo`/`open`/`read`/`write` loops of the worker's `main` and `send_request_and_get_response`. These are blocking inter-process I/O. The request is a parameter of `Worker.Respond` and the menu's `Step` returns the request it would send.
- Console output: `print_menu`, and the `printf`/`fwrite` reports of both programs. The searches return or collect the lines instead.
- Timing with `clock` and `clock_gettime`, which are wall-clock and floating point.
- The body of `hash_string`. `hash.c` is not part of this model, and the hash is a parameter.
- The `search_in_index` prototype, which has no definition in the modelled files.
- File mechanics: `fopen`/`access` existence checks, the lazy build a search triggers when the index file is missing, `wb+` truncation, the `fseek`/`fread`/`fwrite`/`ftell` failure branches of the builder and the searches, and the worker's `-1` return when the header cannot be read or a pointer argument is NULL. The index is an in-memory arena that is always readable.
- `Worker.SearchByTitleAndUpdate`: a bucket index inside the header's count but past the stored table reads as empty. The C code would read whatever bytes lie at that offset.
- `fgets` splitting of lines longer than its 4096- or 8192-byte buffer: every line is assumed to fit.
- Locale-dependent behaviour of `isspace`, `isdigit`, `tolower` and `strcasecmp`: the C locale (ASCII) is modelled.
- The menu loop's reading of the option line (`fgets` + `trim_inplace` + `atoi`) and the failed-`fgets` branches: the option number and the entered line are parameters of `DataProgram.Menu.Step`.
- `snprintf` truncation into the 64-byte `field_name` and the 256-byte `value` fields of the request: the names are short and the criteria are at most 255 characters, so nothing is cut.
- `Builder.IndexFile.Insert`: offsets use the literal LP64 `sizeof` values, not the platform's.
