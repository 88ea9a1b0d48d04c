# SecureCheck police dashboard: the in-memory record logic

SecureCheck is a Streamlit dashboard over a MySQL table `police_logs`, one row
per traffic stop. Apart from drawing widgets and sending SQL, the page computes
a few things from the loaded table in pandas:

- the **Key Metrics** tiles: total stops, stops whose outcome mentions
  "arrest", stops whose outcome mentions "warning", and drug-related stops;
- the **Visual Insights** charts: `value_counts()` of `violation` and of
  `driver_gender`;
- the **Predict Stop Outcome & Violation** form: the stop-duration choices, an
  exact-match filter on five fields, and the most frequent `stop_outcome` and
  `violation` among the matches, with a fixed fallback when nothing matches.

This project models that logic as pure functions over a sequence of typed
records and proves what each computes.

- `records.dfy` (`Records`): the `StopRecord` row with nullable (`Option`)
  fields, the column projections, and the `Error` the logic can raise.
- `seqs.dfy` (`Seqs`): mask selection (`data[mask]`), `dropna()` and
  `unique()`.
- `text.dfy` (`Text`): case-insensitive substring search and Python's string
  order.
- `metrics.dfy` (`Metrics`): the four tiles.
- `grouping.dfy` (`Grouping`): `value_counts()` and the two chart sources.
- `modes.dfy` (`Modes`): `Series.mode()[0]`.
- `prediction.dfy` (`Prediction`): the form.

Conventions:

- The loaded table is a parameter (`rows`). Nothing reads the database.
- A frame built from an empty fetch has no columns, so in this model "the table
  is empty" and "the column is missing" are the same condition. Selecting a
  column of such a frame raises `KeyError`, and so does `mode()[0]` when every
  value is null. Those crashes are `Failure(...)` results, not preconditions.
- `str.contains(word, case=False)` searches with a case-insensitive regular
  expression. Both words are lower-case ASCII letters. A text character
  therefore matches a pattern letter when it is that letter or its capital,
  or one of the four non-ASCII letters Python's `re.IGNORECASE` equates with
  ASCII letters: U+0130 and U+0131 for `i`, U+017F for `s`, U+212A for `k`.
  `Text.Fold` encodes exactly this.
- `mode()` returns all tied values sorted, and `[0]` takes the least of them
  in Python's code-point order (`Text.LessEq`). Ties are not broken by first
  occurrence.
- The no-match fallback is outcome "warning" and violation "speeding", in
  that order.

## Model

| member | source | states |
|---|---|---|
| `Metrics.KeyMetrics` | Police_secure_check.py:65-77 | Fails with a missing `stop_outcome` column exactly when the table is empty. Otherwise: total is the row count; arrests and warnings are the numbers of rows whose present outcome contains the word, ignoring case; drug-related is the number of rows whose flag is exactly 1. Each count is at most the total. |
| `Metrics.GuardedMetrics` | Police_secure_check.py:65-77 | The same four counts for every table, the empty one included. Each is at most the total. |
| `Metrics.Selected` | Police_secure_check.py:69 | `data[mask].shape[0]` equals the number of positions where the mask holds, and is at most the row count. |
| `Metrics.ArrestsPartitionRows` | Police_secure_check.py:69 | Arrests plus rows not counted as arrests (null outcomes included) equal the total. |
| `Metrics.ArrestAndWarningOverlap` | Police_secure_check.py:69-73 | A one-row table with outcome "Warning, then ARREST" counts 1 arrest and 1 warning: the tiles can overlap, and matching ignores case. |
| `Metrics.EmptyTableRaises` | Police_secure_check.py:69 | As written, the metrics section fails on a table with no rows. |
| `Metrics.EmptyTableHasZeroMetrics` | Police_secure_check.py:65-77 | With the empty-frame guard, an empty table gives four zero tiles. |
| `Text.ContainsFolded` | Police_secure_check.py:69 | True exactly when the pattern occurs at some offset of the text, comparing case-folded text characters with the pattern. |
| `Seqs.Filter` | Police_secure_check.py:176-182 | Every kept element satisfies the mask. Each satisfying value keeps its multiplicity and every other value is dropped. The result is a subsequence of the input, so table order is kept. |
| `Seqs.FilterCountsIndexes` | Police_secure_check.py:69 | The number of selected rows equals the number of positions where the mask is true. |
| `Seqs.DropNone` | Police_secure_check.py:169 | `dropna()` keeps every present value as often as it occurs and nothing else, and there are as many as the column has non-null entries. Read back as column entries, the result is a subsequence of the column, so column order is kept. |
| `Seqs.DropNoneFirstIndex` | Police_secure_check.py:169 | Of two present values, the one whose first entry comes earlier in the column also comes first in `dropna()`, and the converse. |
| `Seqs.Unique` | Police_secure_check.py:169 | `unique()` is duplicate-free, has exactly the input's values, and lists them in order of first occurrence. |
| `Grouping.CountValues` | Police_secure_check.py:87 | One bucket per distinct present value. Each count equals that value's occurrences and is at least 1. The counts add up to the number of non-null entries. |
| `Grouping.SortByCount` | Police_secure_check.py:87 | Sorting is a permutation of the buckets (same multiset), so it keeps the value set, the total and distinctness; counts end up in non-increasing order. |
| `Grouping.ValueCounts` | Police_secure_check.py:87 | `value_counts()`: distinct values, each count equal to its occurrences, the values exactly the present ones, the counts summing to the non-null count, largest first. |
| `Grouping.ViolationChart` | Police_secure_check.py:86-88 | The section's own guard: skipped exactly when the table is empty; otherwise the value counts of `violation`. |
| `Grouping.GenderChart` | Police_secure_check.py:101-103 | The section's own guard: skipped exactly when the table is empty; otherwise the value counts of `driver_gender`. |
| `Modes.Best` | Police_secure_check.py:185 | Returns a candidate that no other candidate outnumbers and that is the least among equally frequent candidates. |
| `Modes.Mode` | Police_secure_check.py:185-186 | Absent exactly when every entry is null. Otherwise a present value of maximal frequency, the least one on a tie. |
| `Modes.ModeIsUnique` | Police_secure_check.py:185 | Any value of maximal frequency that is least among the tied ones is the value `Mode` returns. |
| `Prediction.DurationOptions` | Police_secure_check.py:169 | Empty table: exactly ["0-15 min", "16-30 min"]. Otherwise: duplicate-free, an option exactly when it is some row's non-null duration, and listed in the order in which each duration first appears in the table's rows. |
| `Prediction.Matching` | Police_secure_check.py:176-182 | A row is kept exactly when gender, age, search flag, duration and drug flag all equal the form's values; every matching row keeps its multiplicity; the result is a subsequence of the table. |
| `Prediction.Phrase` | Police_secure_check.py:191-192 | The phrase is the "yes" text exactly when the flag is 1 and the "no" text exactly when it is 0: "A search was conducted" or "No search was conducted", and "was drug-related" or "was not drug-related". |
| `Prediction.Summarize` | Police_secure_check.py:184-192 | No matching rows: exactly ("warning", "speeding"). Otherwise success exactly when some matching outcome and some matching violation are present, each prediction then being the least most-frequent value among the matches; failing that, the error names the first all-null column. The phrases follow the flags. |
| `Prediction.Predict` | Police_secure_check.py:176-192 | Empty table: missing-column failure. No matches: exactly ("warning", "speeding"). With matches: success exactly when some matching outcome and some matching violation are present, each prediction then being the least most-frequent value among the matches. Otherwise it fails on the first all-null column. The phrases always follow the flags. |
| `Prediction.NoMatchFallsBack` | Police_secure_check.py:184-189 | A non-empty table with no row matching the form predicts outcome "warning" and violation "speeding". |
| `Prediction.MatchingRowDrivesPrediction` | Police_secure_check.py:176-186 | A matching row with present outcome and violation makes the match set non-empty. The prediction then succeeds, and its outcome and violation are the least modes of the matching outcomes and violations. |
| `Prediction.PredictSucceedsWith` | Police_secure_check.py:184-186 | A match with present outcome and violation is enough for the prediction to succeed. |
| `Prediction.PredictedOutcomeIsMode` | Police_secure_check.py:185-186 | On success with matches, the predicted outcome and violation are what `Mode` returns for the matching rows. |
| `Prediction.DominantOutcomePredicted` | Police_secure_check.py:184-186 | Three matching "Arrest" rows and one matching "Warning" row predict "Arrest". |

## Left out

- Database access (`create_connection`, `fetch_data`, lines 7-40) is I/O. The loaded rows are a parameter. A failed connection or query returns an empty frame, which the model treats like any empty table.
- The advanced-query catalog and its runner (lines 118-152). The queries are SQL text evaluated by MySQL, and choosing one is a dictionary lookup.
- All Streamlit and Plotly rendering: page layout, tables, metric tiles, charts and the Markdown prediction summary with its `strftime` date and time text (lines 44-62, 89-96, 104-112, 141-173, 194-205). Only the two summary phrases are modelled.
- The display-only form fields are not modelled because no computation uses them: date, time, county, race and vehicle number.
- The form widgets' own limits are not imposed: gender is "male" or "female" and age is between 16 and 100. `Predict` takes any gender string and any integer age.
- Column dtypes are not modelled. pandas stores an integer column with nulls as floats, so `driver_age`, `search_conducted` and `drugs_related_stop` become `Option<int>`, and equality is unchanged. Comparisons between mixed-type object columns are also out.
- `Grouping.ValueCounts`: the contract does not state the order among equal counts. The model keeps first-appearance order, and pandas does not document one.
- `Text.ContainsFolded`: folds only the characters that can match a lower-case ASCII letter. That is exact for the two fixed patterns "arrest" and "warning", but it is not general regular-expression case folding.
- Each page section is modelled as if it ran on its own. In the program as written, the uncaught `KeyError` of the metrics section (line 69) ends the script run on an empty table, so lines 82-205 never execute there. The empty-table branches of `Grouping.ViolationChart`, `Grouping.GenderChart`, `Prediction.DurationOptions` and `Prediction.Predict` are therefore what those sections would do on their own; they become reachable once the metrics section is guarded (see Findings).
- The prediction's other crash paths (`KeyError` on an empty frame, `mode()[0]` on an all-null column) are modelled as the source has them. No corrected version is given.

## Findings

| source | as written | input that shows it | evidently intended | confidence | as-written member | corrected member |
|---|---|---|---|---|---|---|
| Police_secure_check.py:69 | `data['stop_outcome']` is read from the frame `fetch_data` returns. For an empty result or a failed connection that is `pd.DataFrame()`, which has no columns, so the metrics section raises `KeyError`. | an empty `police_logs` table, or an unreachable database | show zero tiles, as the table display (line 54) and the charts (lines 86, 101) already guard on `data.empty`; the guard would also let the rest of the page run, making the charts' "No data available" branches, the default duration options and the form's own empty-table behaviour reachable | high; not executed | `Metrics.EmptyTableRaises` (on `Metrics.KeyMetrics`) | `Metrics.EmptyTableHasZeroMetrics` (on `Metrics.GuardedMetrics`) |
