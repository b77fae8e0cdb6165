# Startup topic trends: a verified model of the deterministic core

The repository turns startup descriptions into topics and yearly topic
trends. It normalises the text and looks up the description column. A
TF-IDF vectoriser and an NMF factorisation then give one weight per
document and topic (`W`) and one weight per topic and term (`H`). From
those matrices it derives each document's topic, the topic distribution,
the top terms of every topic, and a year-by-topic count table whose five
largest topics are plotted.

The project models the logic around the factorisation, with `W` and `H`
as given inputs:

- `preprocess.dfy` (module `Preprocess`) models `clean_text` and
  `_safe_col`. `clean_text` lower-cases the text, turns commas and
  slashes into spaces, replaces every character other than `a-z`, `0-9`,
  whitespace, `-` and `+` by a space, collapses whitespace runs to one
  space and strips the ends. `_safe_col` is a case-insensitive lookup of
  the first matching candidate among the column names.
- `topic_model.dfy` (module `TopicModel`) covers four steps:
  - the per-document argmax over `W`, with ties going to the first index;
  - the `topic_id` column written into the table, as a `Frame` class
    whose `SetColumn` method updates it in place;
  - the per-topic document counts, sorted by count descending;
  - the loop that collects the top `TOP_WORDS` terms of every row of `H`
    into `topic_words`.
- `trend_report.dfy` (module `TrendReport`) covers the trend report:
  - it drops records without a founding year or topic;
  - it truncates the year toward zero and keeps 1995..2026, both ends
    included;
  - it builds a dense pivot table: one row per year present, one column
    per topic present, each cell counting the records with a
    non-missing text, and 0 where there are none;
  - it picks the five topics with the largest column totals.
- `ranking.dfy` (module `Ranking`) holds the "sort by value descending,
  take the first n" step shared by `argsort()[::-1][:n]`,
  `sort_values(ascending=False)` and `.head(n)`.
- `tally.dfy` (module `Tally`) holds occurrence counting and the
  ascending distinct-key index that group-by and pivot tables use.
- `wrappers.dfy` (module `Wrappers`) holds `Option`.

Neither numpy's `argsort` nor pandas' `sort_values` is a stable sort. The
model sorts by insertion, but its contracts state only what the source
guarantees: the result is a permutation in non-increasing order, and no
entry left out outweighs an entry taken.

In the trend report's records, a missing year, topic or text is `None`.
The enriched table reaches the report through a CSV file, so a text that
reads back as missing is `None` too. That is a text that normalised to the
empty string, or to one of pandas' default missing-value words such as
`nan`, `-nan` or `null`. `aggfunc="count"` does not count such records.

## Model

| member | source | states |
|---|---|---|
| Preprocess.CleanTextIsClean | src/preprocess.py:22-26 | For every input, each output character is `a-z`, `0-9`, `-`, `+` or a space; no two spaces are adjacent, and neither the first nor the last character is a space |
| Preprocess.CleanTextIdempotent | src/preprocess.py:21-27 | `clean_text(clean_text(s)) == clean_text(s)` for every string |
| Preprocess.CleanTextFixedPoints | src/preprocess.py:21-27 | `clean_text(u) == u` holds exactly when `u` is made of kept characters and single inner spaces (both directions) |
| Preprocess.CleanTextKeeps | src/preprocess.py:22-25 | Deleting the spaces from the output gives the lower-cased input's letters, digits, `-` and `+`, in their original order, and nothing else |
| Preprocess.CleanTextSeparator | src/preprocess.py:23-25 | Writing a space in place of a comma, slash or other dropped non-whitespace character does not change the result: such characters act only as separators |
| Preprocess.CleanTextLower | src/preprocess.py:22 | `clean_text` lower-cases first: an input and its lower-cased form give the same result, so capitals never change where words start or end |
| Preprocess.CleanTextWord | src/preprocess.py:22-26 | A run of characters that each lower-case to a letter, digit, `-` or `+` comes out as its lower-cased form, unchanged otherwise |
| Preprocess.CleanTextGap | src/preprocess.py:22-26 | A gap of characters that do not lower-case to a kept one (whitespace, commas, slashes, punctuation) at the start or at the end of the input vanishes: `clean_text(gap + s) == clean_text(s) == clean_text(s + gap)` |
| Preprocess.CleanTextJoin | src/preprocess.py:22-26 | A non-empty gap between two parts that each keep a character becomes exactly one space between their results: `clean_text(x + gap + y) == clean_text(x) + " " + clean_text(y)`; words are neither glued together nor split further |
| Preprocess.CleanText | src/preprocess.py:21-27 | `clean_text` composed of its steps. The `CleanText*` lemmas above and below fix it on every input: `CleanTextGap` and `CleanTextJoin` split the input at every gap of dropped characters, and `CleanTextWord` gives the result for each run of characters that lower-case to kept ones |
| Preprocess.Separated | src/preprocess.py:22-25 | Lower-casing, the two replacements and the scrub; `SeparatedAppend` shows it works character by character, `SeparatedOfGap` that dropped characters become whitespace and `SeparatedOfClean` that a clean string passes unchanged |
| Preprocess.Collapse | src/preprocess.py:26 | `re.sub(r"\s+", " ", s)`: the result starts with a space exactly when the input starts with whitespace; `CollapseShape`, `CollapseOfClean`, `CollapseAppend`, `CollapseGap` and `KeptCollapse` state that runs become single spaces and kept characters stay |
| Preprocess.Strip | src/preprocess.py:26 | `.strip()`: the trims remove only whitespace (`LeadingSpaceIsSpace`, `TrailingSpaceIsSpace`), leave no whitespace at either end (`LeadingSpace`, `TrailingSpace`) and keep every kept character (`KeptStrip`); `StripSpaceCons`, `StripSpaceSnoc` and `StripJoin` state how it treats a space at either end and a single inner space |
| Preprocess.LowerMap | src/preprocess.py:14 | `{c.lower(): c for c in df.columns}`; its keys and values are stated by `LowerMapKeys` and `LowerMapValues` |
| Preprocess.CleanTextEmpty | src/preprocess.py:21-27 | The result is `""` exactly when no input character lower-cases to a kept character, e.g. input made only of punctuation, commas, slashes and whitespace |
| Preprocess.KeptCollapse | src/preprocess.py:26 | Collapsing whitespace runs neither loses nor reorders a kept character |
| Preprocess.KeptStrip | src/preprocess.py:26 | `strip()` neither loses nor reorders a kept character |
| Preprocess.LeadingSpaceIsSpace | src/preprocess.py:26 | Everything the left trim removes is whitespace |
| Preprocess.TrailingSpaceIsSpace | src/preprocess.py:26 | Everything the right trim removes is whitespace |
| Preprocess.LowerMapKeys | src/preprocess.py:14 | The keys of `{c.lower(): c for c in df.columns}` are exactly the lower-cased column names |
| Preprocess.LowerMapValues | src/preprocess.py:14 | Each key maps to the last column with that lower-cased name: a later column overwrites an earlier one |
| Preprocess.SafeCol | src/preprocess.py:12-18 | The result is `None` exactly when no candidate equals a column ignoring case. Otherwise it is a column name: the last column matching the earliest candidate that matches any column |
| TopicModel.Argmax | src/topic_model.py:44 | The index of a row's maximum: no weight is larger, and every earlier weight is strictly smaller |
| TopicModel.FirstArgmaxUnique | src/topic_model.py:44 | There is only one such first-maximum index, so ties go to the smallest index |
| TopicModel.AssignTopics | src/topic_model.py:44 | One topic id per document, each in `[0, N_TOPICS)` and the first maximum of that document's row of `W` |
| TopicModel.Frame.SetColumn | src/topic_model.py:45 | `df[name] = values` replaces the named column, or appends it at the end, when the length matches the row count; otherwise (pandas raises) nothing changes; every other column is unchanged |
| TopicModel.LabelDocuments | src/topic_model.py:44-45 | The table gains the column `topic_id` holding each document's first-argmax topic; the key set gains exactly `topic_id`; every other column is unchanged and the row count stays |
| TopicModel.TopicCountsProperties | src/topic_model.py:46 | The distribution lists each topic that occurs exactly once and no other topic, with its document count, which is positive; the counts sum to the number of documents and do not increase along the list |
| TopicModel.TopicKey | src/topic_model.py:46 | A topic is listed in the distribution exactly when some document has it |
| TopicModel.GroupSizes | src/topic_model.py:46 | `groupby("topic_id").size()`: one entry per distinct topic, ascending, with its count (`SizesOverEntries`, `SizesOverSpec`, `Tally.SortedKeys`) |
| TopicModel.TopicCounts | src/topic_model.py:46 | `.sort_values(ascending=False)` of the group sizes; its properties are `TopicCountsProperties` and `TopicKey` |
| TopicModel.TopIndices | src/topic_model.py:52 | `H[t].argsort()[::-1][:n]` lists `min(n, |row|)` distinct positions of the row by non-increasing weight; no position left out outweighs a listed one |
| TopicModel.Terms | src/topic_model.py:53 | `[feature_names[i] for i in top_idx]`; `TermsDistinct` states when the terms are distinct |
| TopicModel.TopTerms | src/topic_model.py:52-53 | The terms at a row's top positions; `TopicWords` states what the loop collects of them |
| TopicModel.TermsDistinct | src/topic_model.py:53 | Distinct positions in a vocabulary of distinct terms give distinct terms |
| TopicModel.TopicWords | src/topic_model.py:50-54 | The loop builds exactly `N_TOPICS` lists. List `t` is the vocabulary terms at `H[t]`'s top positions, has `min(TOP_WORDS, |H[t]|)` terms, and its terms are distinct when the vocabulary is |
| Ranking.SortDescending | src/topic_model.py:46 | A sort by value, descending, of the same length; `SortPermutes`, `SortTotal` and `SortDistinct` state its properties |
| Ranking.Head | src/trend_report.py:42 | `sort_values(ascending=False).head(n)`; `HeadIsTop` states its properties |
| Ranking.SortPermutes | src/topic_model.py:46 | Sorting by value descending permutes the series and leaves it in non-increasing order |
| Ranking.SortTotal | src/topic_model.py:46 | Sorting does not change the sum of the values |
| Ranking.SortDistinct | src/topic_model.py:46 | Sorting keeps distinct keys distinct |
| Ranking.HeadIsTop | src/trend_report.py:42 | `sort_values(ascending=False).head(n)` takes `min(n, |s|)` entries of the series in non-increasing order. Their keys are distinct when the series' keys are. All of the series' total is kept when everything is taken, and no entry left out outweighs an entry taken |
| Tally.SortedKeys | src/topic_model.py:46 | The group-by index is strictly increasing and holds exactly the values that occur |
| Tally.CountPositive | src/topic_model.py:46 | A value occurs exactly when its count is positive |
| Tally.SumCountsCovers | src/topic_model.py:46 | The counts over a list of distinct keys covering the data add up to its length |
| TrendReport.Truncate | src/trend_report.py:27 | `astype(int)` truncates toward zero: for `x >= 0`, `0 <= n <= x < n + 1`; for `x < 0`, `n - 1 < x <= n <= 0` |
| TrendReport.DropMissing | src/trend_report.py:26 | `dropna` keeps exactly the input records that have a year and a topic |
| TrendReport.YearsToInt | src/trend_report.py:27 | `astype(int)` on the year of every record; `PrepareIsSelected` states its effect in the filter chain |
| TrendReport.InRange | src/trend_report.py:30 | The inclusive range filter on the integer year; `PrepareIsSelected` states its effect in the filter chain |
| TrendReport.Prepare | src/trend_report.py:25-30 | The three steps in order; `PrepareIsSelected` and `SelectedMembers` state which records survive |
| TrendReport.PrepareIsSelected | src/trend_report.py:25-30 | `dropna`, `astype(int)` and the range filter, applied in that order, keep exactly the records that have a year and a topic and whose truncated year lies in `[1995, 2026]`, in input order with the year truncated |
| TrendReport.SelectedMembers | src/trend_report.py:25-30 | A kept row is exactly an accepted record with its year truncated |
| TrendReport.PivotTable | src/trend_report.py:32-36 | `pivot_table(..., aggfunc="count").fillna(0)`: cell `(y, t)` counts the records of year `y` and topic `t` with non-missing text, 0 where there are none; `PivotShape`, `PivotTotal`, `ColumnTotalIsTopicTotal` and `ReportCells` state its properties |
| TrendReport.PivotShape | src/trend_report.py:32-36 | Row keys are exactly the years present, column keys exactly the topics present, both strictly ascending, and the grid is dense: one row per year, one cell per topic |
| TrendReport.PivotTotal | src/trend_report.py:32-36 | All cells add up to the number of kept records with non-missing text |
| TrendReport.ColumnTotalIsTopicTotal | src/trend_report.py:32-36 | The column of topic `t` adds up to the number of kept records of topic `t` with non-missing text |
| TrendReport.ColumnTotalsEntries | src/trend_report.py:42 | `pivot.sum(axis=0)` pairs each topic of the table, once, with its column total |
| TrendReport.ColumnTotals | src/trend_report.py:42 | `pivot.sum(axis=0)`; `ColumnTotalsEntries` states its entries |
| TrendReport.TopTopics | src/trend_report.py:42 | The keys of the top five column totals; `TopTopicsProperties` states its properties |
| TrendReport.TopOfTotals | src/trend_report.py:42 | For a list of distinct topics paired with their totals, the top five are up to five distinct topics of the list, as many as it has up to five, listed by non-increasing total; no topic left out has a larger total than one picked |
| TrendReport.TopTopicsProperties | src/trend_report.py:42 | `top_topics` holds `min(5, #topics)` distinct column keys of the table by non-increasing column total; every unselected topic's total is at most the smallest selected total |
| TrendReport.Report | src/trend_report.py:21-23 | No table is produced exactly when the `founded_year` column is absent |
| TrendReport.SelectedCounts | src/trend_report.py:25-36 | Counted over the raw records, a cell's count is the number of accepted records of that truncated year and topic with a text |
| TrendReport.ReportCells | src/trend_report.py:21-36 | Stated on the raw records: the table's years are the truncated in-range years of records with a year and topic, and its topics are theirs. Each cell counts the accepted records of its year and topic that have a text, and all cells together count every accepted record with a text |

## Left out

- TF-IDF vectorisation and the NMF factorisation (src/topic_model.py:30-41) are library routines over floating point; `W`, `H` and the vocabulary are inputs of the model.
- File and console I/O is not modelled: reading and writing CSVs, directory creation, `sys.exit`, the markdown report, the matplotlib figure, joblib persistence, and the `main` functions of the three files around the modelled lines.
- `pd.to_numeric(..., errors="coerce")` parsing rules are not modelled: a record's year arrives already coerced, as `Option<real>`.
- Preprocess.CleanText: lower-casing covers ASCII letters only. Python's `str.lower` also maps non-ASCII letters, and a few of them give ASCII letters that the text then keeps (the Kelvin sign gives `k`; `İ` gives `i` and a combining dot). The model scrubs those characters instead.
- Preprocess.SafeCol: the same ASCII-only lower-casing compares column names with candidates, so a column such as `MAR\u212AET` (with the Kelvin sign), which Python matches with `market`, does not match in the model; for ASCII names the two agree.
- TopicModel: weights are exact integers standing for the floating-point weights, whose order is all that argmax and argsort use; NaN weights are not modelled.
- Ranking.SortDescending: the model fixes one order among equal values (insertion order), which numpy's and pandas' unstable sorts do not; no contract and no lemma depends on it.
- TopicModel.TopicWords: requires `H` to have at least `N_TOPICS` rows and no row longer than the vocabulary, as the factorisation guarantees; with fewer rows the source raises an index error.
- TopicModel.Frame.SetColumn: pandas' creation of an index when a column is added to a table without rows is not modelled, and neither are column labels other than strings.
- TrendReport: the table is assumed to have a `topic_id` column; without one, `dropna(subset=...)` raises.
- TrendReport: when no record is accepted, the model gives an empty table and no topics to plot; the source then fails at the plot (src/trend_report.py:45), where `pivot[top_topics].plot()` raises a `TypeError` because there is no numeric data to plot. Plotting is not modelled.
