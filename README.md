# US bikeshare explorer, modelled in Dafny

`bikeshare.py` is an interactive console script. It asks the user for a city
and for an optional month and weekday, loads that city's trips and filters them,
prints some statistics, and pages through the raw rows five at a time. This
project models the parts of it that are logic rather than library calls, and
proves what they promise:

- **Validated prompt** (`get_user_input`), module `UserInput`. The console is a
  sequence of input lines plus a cursor. Each line is lower-cased and stripped
  (module `Text`), then classified: a member of the choices is returned, "end"
  exits, and "help" or anything else makes the prompt ask again. The outcome is
  `Accepted(value, next) | Exit(next) | OutOfInput`. `Exit` stands for
  `SystemExit`. `OutOfInput` stands for the input running dry.
- **Filter collector** (`get_filters`), module `Filters`. It repeats a pass of
  prompts (city, whether to filter, month, weekday, confirmation) until the
  confirmation is "yes". It draws its values from `city_data`, `month_list` and
  `day_list`.
- **Record filter** (`load_data` minus file reading and date parsing), module
  `Loader`. It picks the column names by column count and keeps the rows of the
  selected month and weekday.
- **Station report** (`station_stats`), module `Stations`. It reports the most
  common start station, end station and start-end combination. The source's
  end-station line is modelled as written, and also corrected.
- **Raw-data pager** (`raw_data`), module `Pager`. It prints five-row slices from
  a bookmark while the user answers "yes". Its `for` loop's range is fixed at
  loop entry.
- **Restart question** of `main`, module `Session`.

The interactive loops are methods with `while` loops. Each is proved equal to
a recursive specification function over the normalized answers
(`ReadChoice` = `Prompt`, `GetFilters` = `Collect`, `RawData` = `RawDataSpec`).
The properties are lemmas about those functions.

Some of the script's behaviour is easy to misread; the model follows the code:
- Membership in the choices is tested before "end" and "help"
  (bikeshare.py:33-39).
- `month_list` holds only January to June (bikeshare.py:11-12).
- The raw-data pager asks its first question even for an empty table, and then
  prints nothing (bikeshare.py:258-262).
- The "help" branch after the confirmation (bikeshare.py:97-98) is unreachable.
  The yes/no prompt only ever returns "yes" or "no".
- `mode()[0]` on an empty column fails. It is modelled as the error `EmptyTable`,
  not as a printed notice.

## Model

| member | source | states |
|---|---|---|
| Text.Lower | bikeshare.py:31 | `s.lower()`, lowering the ASCII capitals; `NormalizeIsNormal` and `NormalizeIgnoresCase` state what it guarantees |
| Text.StripLeft | bikeshare.py:31 | `s.lstrip()`; `StripLeftDropsLeadingSpace` states it |
| Text.StripRight | bikeshare.py:31 | `s.rstrip()`; `StripRightDropsTrailingSpace` states it |
| Text.Strip | bikeshare.py:31 | `s.strip()`; `StripKeepsCore` states it |
| Text.Normalize | bikeshare.py:31 | `input(...).lower().strip()`; `NormalizeIsNormal`, `NormalIsFixed` and `NormalizeIdempotent` state it |
| Text.StripLeftDropsLeadingSpace | bikeshare.py:31 | `lstrip` returns a suffix of its input; every character it drops is whitespace and the result does not start with whitespace |
| Text.StripRightDropsTrailingSpace | bikeshare.py:31 | `rstrip` returns a prefix of its input; every character it drops is whitespace and the result does not end with whitespace |
| Text.StripKeepsCore | bikeshare.py:31 | `strip` returns a contiguous slice of its input that neither starts nor ends with whitespace, and everything cut off on either side is whitespace |
| Text.NormalizeIsNormal | bikeshare.py:31 | `s.lower().strip()` contains no capital letter and has no surrounding whitespace |
| Text.NormalIsFixed | bikeshare.py:31 | a string with no capitals and no surrounding whitespace is its own normal form |
| Text.NormalizeIdempotent | bikeshare.py:31 | lower-casing and stripping twice is the same as doing it once |
| Text.NormalizeIgnoresCase | bikeshare.py:31 | lines that differ only in letter case normalize to the same answer |
| UserInput.Answers | bikeshare.py:31 | one answer per console line, each the line lower-cased and stripped (`AnswerAt`) |
| UserInput.AnswerAt | bikeshare.py:31 | the answer read at position `k` is line `k` lower-cased and stripped |
| UserInput.Classify | bikeshare.py:33-46 | the order of the tests: a choice first, then "end", then "help", else invalid; `Prompt`, `PromptDecidedAt` and `ClassifyIgnoresCase` state its consequences |
| UserInput.Prompt | bikeshare.py:30-48 | an accepted value is a member of the choices and is the answer on the deciding line; an exit happens only on the answer "end" and only when "end" is not a choice; the cursor only moves forward |
| UserInput.PromptSkipsOnlyRetries | bikeshare.py:33-46 | every answer the prompt passes over is "help" or unrecognised, so it asks again after each of them |
| UserInput.PromptDecidedAt | bikeshare.py:33-37 | the first answer that is a choice or "end" decides the prompt: it returns that choice or exits, whatever invalid answers came before |
| UserInput.PromptOutOfInputIff | bikeshare.py:30-46 | the input runs dry exactly when every remaining answer makes the prompt ask again |
| UserInput.PromptReturnsNormalizedLine | bikeshare.py:31-37 | on raw lines, the value returned is the deciding line lower-cased and stripped; the exit comes on a line that normalizes to "end" |
| UserInput.ClassifyIgnoresCase | bikeshare.py:31-33 | the classification of a line depends only on its normal form |
| UserInput.ReadAnswer | bikeshare.py:31 | the answer read is the normalized line at the cursor, as `Answers` has it |
| UserInput.NoticesFor | bikeshare.py:39-46 | the messages printed for the answers passed over, one each; their contents are `NoticeAt` and `NoticesExplainRetries` |
| UserInput.NoticeAt | bikeshare.py:39-46 | notice `k` is the one printed for answer `lo + k` |
| UserInput.NoticesExplainRetries | bikeshare.py:39-46 | for every answer the prompt passed over, the options are printed exactly when it was "help", and the error message otherwise |
| UserInput.ReadChoice | bikeshare.py:18-48 | the loop returns what `Prompt` specifies, and the notices it prints are `NoticesFor` the lines from the cursor up to the deciding line (to the end when the input runs dry) |
| Filters.CityNamesAreTheCatalog | bikeshare.py:7-9 | the city choices are exactly the keys of `city_data` |
| Filters.AskMonthDay | bikeshare.py:73-87 | the month and weekday questions; what they return is `AskMonthDaySound` |
| Filters.AskMonthDaySound | bikeshare.py:11-15 | the month is drawn from `month_list` and the day from `day_list`; the filter question was answered "yes" or "no", and "no" leaves both at "all" |
| Filters.Pass | bikeshare.py:66-96 | one pass of the loop; what it returns is `PassSound` |
| Filters.PassSound | bikeshare.py:68-96 | a pass yields a city from `city_data`, a month from `month_list` and a day from `day_list`; it is confirmed exactly when its last answer is "yes", and otherwise that answer is "no" |
| Filters.Collect | bikeshare.py:66-98 | passes repeated until one is confirmed; what it returns is `CollectSound` and `RejectedPassForgotten` |
| Filters.CollectSound | bikeshare.py:66-101 | `get_filters` returns only a selection drawn from the fixed lists, and only right after a confirmation answered "yes" |
| Filters.CollectEndsOnYes | bikeshare.py:92-94 | on raw lines, the confirmation line that ends `get_filters` normalizes to "yes" |
| Filters.RejectedPassForgotten | bikeshare.py:95-96 | a pass confirmed with "no" carries nothing over: the result is that of a fresh start on the remaining input |
| Filters.ReadMonthDay | bikeshare.py:73-87 | the month and weekday questions return what `AskMonthDay` specifies |
| Filters.ReadPass | bikeshare.py:68-98 | one pass of the loop body returns what `Pass` specifies; the "help" confirmation branch is unreachable |
| Filters.GetFilters | bikeshare.py:51-101 | the loop returns what `Collect` specifies |
| Filters.RetryScenario | bikeshare.py:66-98 | answering "new york city", "no", "no" and then "new york city", "no", "yes" selects ("new york city", "all", "all") |
| Loader.Relabel | bikeshare.py:123-130 | a six-column table gets the first six names and an eight-column table all eight, position by position; any other count fails with a length mismatch |
| Loader.DemographicsOnlyWithEightColumns | bikeshare.py:127-130 | the `gender` and `birth_year` columns exist exactly for an eight-column table |
| Loader.MonthMask | bikeshare.py:142 | the month mask, one entry per row; what filtering by it keeps is `SelectByMonth` |
| Loader.DayMask | bikeshare.py:145 | the weekday mask, one entry per row; what filtering by it keeps is `SelectByDay` |
| Loader.Select | bikeshare.py:142-145 | `df[mask]`; `SelectByMonth` and `SelectByDay` state which rows it keeps |
| Loader.FilterTrips | bikeshare.py:141-145 | the two filters as written, month first and then weekday, each skipped on "all"; `FilterTripsIsKeep` states what they keep |
| Loader.Keep | bikeshare.py:141-147 | reference filter: the result is a subsequence of the rows in their order, each kept row matches the month and weekday, and each matching row is kept as many times as it occurs |
| Loader.SelectByMonth | bikeshare.py:141-142 | filtering by the month mask keeps exactly the rows whose lower-cased month equals the selected month |
| Loader.SelectByDay | bikeshare.py:144-145 | filtering by the weekday mask keeps exactly the rows whose lower-cased weekday equals the selected day |
| Loader.KeepThenKeep | bikeshare.py:141-145 | filtering by month and then by weekday is the same as filtering by both at once |
| Loader.KeepAllIsEverything | bikeshare.py:141-147 | with month and day both "all", the rows come back unchanged |
| Loader.FilterTripsIsKeep | bikeshare.py:141-145 | the source's two successive filters keep exactly the matching rows |
| Loader.LoadData | bikeshare.py:104-147 | the loaded table has the positional column names plus `month`, `dow` and `hour`, and exactly the matching rows in order; it fails only when the column count is neither 6 nor 8 |
| Stations.MostCommonOf | bikeshare.py:180 | the candidate returned occurs in the column at least as often as every other candidate |
| Stations.Mode | bikeshare.py:180 | `mode()[0]` of a non-empty column is a value of the column that occurs at least as often as any other |
| Stations.PairKey | bikeshare.py:188 | the combination key is the start station, then " - ", then the end station |
| Stations.PairKeyAmbiguous | bikeshare.py:188 | two different station pairs can give the same key when a name contains " - " |
| Stations.PairKeys | bikeshare.py:188 | the combination column, one key per trip; `StationStatsSound` states what is reported from it |
| Stations.StationStatsAsWritten | bikeshare.py:172-191 | the report exists exactly when the table is not empty |
| Stations.AsWrittenEndIsStart | bikeshare.py:179-184 | the reported end station is the reported start station, a most common start station |
| Stations.AsWrittenEndNotMostCommon | bikeshare.py:183-184 | with two trips from "A" to "B", the reported end station is "A", which is not the most common end station |
| Stations.StationStats | bikeshare.py:179-188 | the corrected report exists exactly when the table is not empty |
| Stations.StationStatsSound | bikeshare.py:179-188 | each line of the corrected report is a most common value of its column; the combination is an actual trip's key; the start and combination lines equal the source's |
| Pager.Page | bikeshare.py:263 | a slice holds the rows from the bookmark on, at most five, and is empty past the end |
| Pager.Slices | bikeshare.py:262-264 | the consecutive slices from a bookmark, `n` of them; their contents are `SliceAt` |
| Pager.SliceAt | bikeshare.py:262-264 | slice `k` is the page starting at `bookmark + 5k` |
| Pager.ConcatSlices | bikeshare.py:262-264 | consecutive slices that start inside the table are, joined, exactly the rows they cover, in order |
| Pager.Pages | bikeshare.py:262-270 | the `for` loop with a fixed number of iterations; `PagesAreSlices` and `PagesEnd` state what it prints and how it ends |
| Pager.PagesGoOn | bikeshare.py:262-268 | proof step of the loop: after "yes", one iteration prints its slice and the loop goes on from the next bookmark with one iteration fewer |
| Pager.PagesStop | bikeshare.py:262-271 | proof step of the loop: after any other answer, or an exit, one iteration prints its slice and the loop is over |
| Pager.PagesAreSlices | bikeshare.py:262-264 | the loop prints consecutive slices from the bookmark on (slice `k` at `bookmark + 5k`), and no more slices than iterations left |
| Pager.PagesEnd | bikeshare.py:262-271 | when the loop returns, the bookmark has moved by exactly five per slice; it stops before its last iteration only on a "no" right after a slice |
| Pager.RawDataSpec | bikeshare.py:246-274 | `raw_data`: the first question, then the loop on "yes"; `RawDataShowsOnlyAfterYes` and `RawDataBounded` state it |
| Pager.RawDataShowsOnlyAfterYes | bikeshare.py:258-262 | something is shown if and only if the first answer is "yes" and the bookmark is inside the table |
| Pager.RawDataBounded | bikeshare.py:261-264 | `raw_data` prints at most `len(df) - bookmark` slices, consecutive from the bookmark on; an empty table shows none |
| Pager.EmptyPagePastTheEnd | bikeshare.py:261-264 | with two rows and "yes" three times, the second slice starts past the end and is printed empty |
| Pager.AsksAfterLastRows | bikeshare.py:262-268 | with two rows, "yes" and then "no", the single slice already shows both rows and the loop still reads the "no" |
| Pager.PagesBounded | bikeshare.py:262-270 | the corrected pager: it stops at the end of the table and asks nothing after the last slice; the `BoundedPages*` lemmas state it |
| Pager.BoundedStep | bikeshare.py:262-268 | proof step of the corrected pager: its slice, then, while rows remain and the answer is "yes", the slices from the next bookmark |
| Pager.BoundedPagesAreSlices | bikeshare.py:262-264 | the corrected pager prints consecutive slices from the bookmark on, and each starts inside the table |
| Pager.BoundedPagesNonEmpty | bikeshare.py:262-264 | the corrected pager never prints an empty slice |
| Pager.BoundedPagesCoverRows | bikeshare.py:262-264 | the slices of the corrected pager, joined, are the rows from the bookmark on, in order, up to where it stopped |
| Pager.BoundedPagesEnd | bikeshare.py:262-271 | when the corrected pager returns, the bookmark has moved by five per slice, and short of the end of the table it stopped only on a "no" |
| Pager.BoundedPagesShowAll | bikeshare.py:262-271 | answered "yes" until the end, the corrected pager shows every row from the bookmark on exactly once |
| Pager.BoundedPagesNoQuestionAfterEnd | bikeshare.py:262-268 | when the corrected pager returns past the end of the table, the last answer it read, if any, was the "yes" asking for the last slice |
| Pager.BoundedLastSliceAsksNothing | bikeshare.py:262-268 | with two rows the corrected pager shows both and reads no answer |
| Pager.ShowSlices | bikeshare.py:262-270 | the `for` loop returns what `Pages` specifies for `len(df) - bookmark` iterations |
| Pager.RawData | bikeshare.py:246-274 | `raw_data` returns what `RawDataSpec` specifies |
| Session.AskRestart | bikeshare.py:288-290 | the restart question; `RestartOnlyOnYes` states when it starts over |
| Session.RestartOnlyOnYes | bikeshare.py:288-290 | the session starts over exactly when the deciding line normalizes to "yes", and ends exactly when it normalizes to "no" |

## Left out

- Reading the city file (`pd.read_csv`), dropping the index column and looking up the file path are file I/O. Rows are given as a sequence of `Trip` records, and `city_data`'s file names are only used by that read.
- Parsing `start_time` and deriving `month`, `dow` and `hour` are library date handling. They are fields of `Trip`, given as input.
- `time_stats`, `trip_duration_stats` and `user_stats` are not modelled. They are mode, sum, mean, counts and min/max over columns, with floats and missing values in `birth_year`.
- `main` is not modelled beyond its restart question. Its loop only chains the other operations.
- Printing is not modelled: prompts, the welcome text, the echo of the filters (bikeshare.py:90-91), the separator lines and the timing lines. The pager returns its slices instead of printing them, and `ReadChoice` returns its notices. The callers drop the notices.
- Stations.Mode: states only "some value of maximal count". pandas' choice among tied values (the smallest) is library behaviour.
- Text.Lower: only ASCII capitals are lowered. Python's full Unicode case mapping is not modelled.
- Loader.Relabel: the error for a wrong column count stands for the exception pandas raises. Its message is not modelled.
- Stations.StationStatsAsWritten: an empty table gives `EmptyTable`, standing for the exception `mode()[0]` raises.
- UserInput.ReadChoice: `SystemExit` is the `Exit` outcome. The process is not terminated.
- UserInput.ReadChoice: the input running out is `OutOfInput`. The source would block or fail on end of input.

## Findings

| source | as written | input that shows it | evidently intended | confidence | as-written member | corrected member |
|---|---|---|---|---|---|---|
| bikeshare.py:183-184 | the end-station line prints `df.start_station.mode()[0]` | two trips, both from "A" to "B": the end station is reported as "A" | the most common value of `end_station` | high, not executed | Stations.AsWrittenEndNotMostCommon | Stations.StationStatsSound |
| bikeshare.py:261-264 | `range(bookmark, len(df))` allows `len(df) - bookmark` iterations while `bookmark` moves by five, so slices past the end are printed empty and the user is asked again | two rows, bookmark 0, "yes" three times: the slices are the two rows and then an empty one | stop once the bookmark reaches the end of the table, asking nothing after the slice that shows the last rows | medium, not executed | Pager.EmptyPagePastTheEnd | Pager.BoundedPagesNonEmpty |
