# RepoStats reconcilers in Dafny

This project models the data-reconciliation core of `RepoStats`
(`repostats.py`). RepoStats fetches GitHub traffic data and folds it into
tables persisted from earlier runs. It has two engines.

- **Time-series reconciler** (views and clones).
  - `_get_counts` buckets the fetched events by UTC day, sums `count` and
    `uniques` per day, and zero-fills the 14-day window ending today.
  - `_create_snapshot_dataframe` keeps the rows of the last 14 days, in date
    order.
  - `_merge_dict` folds the fetched per-day table into the stored history
    under a conflict rule.
  - `_create_cumulative_dataframe` merges into the stored history, or falls
    back to the fetched table when none can be read. It then sums rows with
    the same date and densifies from the earliest to the latest date, with
    (0, 0) on gap days.
- **Ranked-list reconciler** (top referral sources and paths).
  - `_create_referral_snapshot` frames the fetched list as it is.
  - `_create_referral_dataframe` concatenates the stored rows and the fetched
    rows, drops duplicate keys keeping the last occurrence, and sorts by
    `count` descending.

Modules:

- `wrappers.dfy`: `Option`.
- `daily_tables.dfy` (`DailyTables`): per-day counts and rows, the group-by
  sum, the date-ordered listing of a table, densification, and reading a
  listing back into a table.
- `time_series.dfy` (`TimeSeries`): the time-series reconciler. `GetCounts` and
  `MergeDict` are methods with loops, as in the source. Each is proved equal
  to a specification function (`DailyCounts`, `Merged`), and the promised
  properties are proved about those functions.
- `ranked_list.dfy` (`RankedList`): the ranked-list reconciler, with the
  pandas steps as functions (`Frame`, `DropDuplicatesKeepLast`,
  `SortByCountDesc`).

Representation:

- Days are integer day numbers since the Unix epoch.
- A timestamp is an integer number of seconds since the epoch, in UTC.
- "Today" is a parameter.
- A persisted file is an `Option`: `None` stands for a file that is missing or
  cannot be parsed, which the source catches and treats as a first run.
- pandas' NaN in a key column is `None`.

The model follows the code in two places where one might expect otherwise: the merge does not take a per-field maximum, and a first-run cumulative table is not left sparse.

- The conflict rule at repostats.py:176-177 replaces the whole stored row when
  either fetched field is strictly greater. It does not take a per-field
  maximum, and the merged series is not monotone per field
  (`TimeSeries.MergedTakesWholeRow`).
- On a first run, the cumulative table is the fetched table densified the same
  way as on later runs (repostats.py:144-157). It is not the sparse fetched
  table (`TimeSeries.CumulativeFirstRun`).

## Model

| member | source | states |
|---|---|---|
| `TimeSeries.DayOf` | repostats.py:111 | The UTC day of a timestamp is the day whose 86400-second span contains it. |
| `TimeSeries.GetCounts` | repostats.py:106-130 | The two loops build exactly `DailyCounts`: each day's sum over the events on that day, with every window day present. |
| `TimeSeries.BucketStep` | repostats.py:112-115 | Adding one more event to the running table (creating its day at (0, 0) if absent, then adding the event's counts) gives the table of the longer event prefix. |
| `TimeSeries.ZeroFillStep` | repostats.py:123-128 | Creating the next window day at (0, 0) when absent gives the table over one more window day. |
| `TimeSeries.DailyCountsDays` | repostats.py:117-128 | The result holds every day from today-13 to today and every event day, including event days outside the window. It holds no other day. A day without events is (0, 0). |
| `TimeSeries.DailyCountsSingle` | repostats.py:112-115 | A single event gives its day exactly its count and uniques. |
| `TimeSeries.DailyCountsAdditive` | repostats.py:112-115 | Events on the same day are summed, not overwritten. On each window day, the counts of two batches together are the sums of each batch's counts. |
| `TimeSeries.MergeDict` | repostats.py:165-178 | The in-place loop over the fetched days yields exactly `Merged(history, fetched)`. |
| `TimeSeries.MergedSpec` | repostats.py:172-177 | The keys are the history's plus the fetched keys. A history-only day keeps its row and a fetched-only day takes the fetched row. A day in both takes the fetched row if and only if its total or its unique is strictly greater; otherwise it keeps the stored row. |
| `TimeSeries.MergedDominates` | repostats.py:172-177 | After the merge, no fetched row beats the merged row of its day under the conflict rule. |
| `TimeSeries.MergedAbsorbed` | repostats.py:172-178 | A history that already has every fetched day, none beaten by the fetched row, is returned unchanged. |
| `TimeSeries.MergedIdempotent` | repostats.py:172-178 | Merging the same fetched table a second time changes nothing. |
| `TimeSeries.MergedNeverWorseInBoth` | repostats.py:172-177 | No history day is dropped. A stored row changes only to a row that is strictly greater in at least one field. |
| `TimeSeries.MergedTakesWholeRow` | repostats.py:176-177 | The whole row is replaced: stored (5, 10) and fetched (6, 3) merge to (6, 3), so the unique count decreases. |
| `TimeSeries.Recent` | repostats.py:48 | `.last("14D")`: the entries dated after the latest day minus 14. Its contract is stated by `TimeSeries.SnapshotSpec`. |
| `TimeSeries.Snapshot` | repostats.py:43-48 | `_create_snapshot_dataframe`: the table sorted by date, cut to its last 14 days; an empty table gives no rows. Its contract is stated by `TimeSeries.SnapshotSpec` and `TimeSeries.SnapshotOfDailyCounts`. |
| `TimeSeries.SnapshotSpec` | repostats.py:46-48 | The snapshot is in ascending date order and carries the table's own rows. Its days are exactly the table's days later than the latest day minus 14. An empty table gives an empty snapshot. |
| `TimeSeries.SnapshotOfDailyCounts` | repostats.py:46-48 | On `_get_counts` output with no event after today, the snapshot is exactly the 14 window days in order, each with its counts. |
| `TimeSeries.SnapshotExample` | repostats.py:43-48 | Events on 2024-01-01 (10, 8) and 2024-01-02 (5, 3), snapshotted on 2024-01-02, give 14 rows. Twelve are (0, 0), and the last two carry the events. |
| `TimeSeries.CumulativeIsDensified` | repostats.py:137-157 | Because the reconciled table has one row per date, grouping changes nothing. The cumulative table is the reconciled table densified, and it fails on an empty table. |
| `TimeSeries.CumulativeFailsOnlyWhenEmpty` | repostats.py:154 | The cumulative step fails (the date range has no bounds) exactly when neither a readable history nor the fetched data has a day. A history with a repeated date is unreadable, so with an empty fetch the step fails even though the file has days; `get_views` and `get_clones` never pass an empty table, since `_get_counts` always holds the 14 window days. |
| `TimeSeries.CumulativeSpec` | repostats.py:148-157 | The cumulative table has exactly one row per day from the earliest to the latest reconciled day, in ascending order. Each reconciled day carries its reconciled row, and every gap day is (0, 0). |
| `TimeSeries.CumulativeFirstRun` | repostats.py:141-157 | Without a readable history, the result is the fetched table densified. |
| `TimeSeries.CumulativeRoundTrip` | repostats.py:137-157 | A dense stored table read back and merged with nothing fetched comes back unchanged. |
| `TimeSeries.Reconciled` | repostats.py:135-145 | The history read from the file merged with the fetched table, or the fetched table alone when the file cannot be read. Its contract is stated by `TimeSeries.ReconciledDominates` and `TimeSeries.RepeatedDateDiscardsHistory`. |
| `TimeSeries.Cumulative` | repostats.py:132-163 | `_create_cumulative_dataframe`: the reconciled table, grouped by date, densified from its least to its greatest day; no table when it has no day. Its contract is stated by `TimeSeries.CumulativeIsDensified`, `TimeSeries.CumulativeSpec`, `TimeSeries.CumulativeFirstRun`, `TimeSeries.CumulativeRoundTrip` and `TimeSeries.CumulativeIdempotent`. |
| `TimeSeries.ReadCumulative` | repostats.py:137-145 | The history is readable exactly when the file exists and has no repeated date. Its table then has exactly the file's dates, each with its row's counts. |
| `TimeSeries.RepeatedDateDiscardsHistory` | repostats.py:137-145 | A history file with a repeated date cannot be read into a table, so the step falls back to the first-run path: the reconciled table is the fetched data alone, and the cumulative table is what a missing file gives. |
| `TimeSeries.RepeatedDateExample` | repostats.py:137-145 | A history with day 1 twice, merged with fetched day 2 (1, 1), reconciles to day 2 alone. |
| `TimeSeries.ReconciledDominates` | repostats.py:137-145 | With or without a readable history, every fetched day is in the reconciled table, with a row the fetched one does not beat. |
| `TimeSeries.CumulativeReadsBack` | repostats.py:137 | The cumulative table, read back from its file, is dense and readable, and gives every reconciled day its reconciled row. |
| `TimeSeries.CumulativeIdempotent` | repostats.py:132-163 | Running the cumulative step again on its own output with the same fetched data returns the same table. |
| `DailyTables.MinDate` | repostats.py:154 | The result is the least date of a non-empty set. |
| `DailyTables.MaxDate` | repostats.py:154 | The result is the greatest date of a non-empty set. |
| `DailyTables.GroupBySum` | repostats.py:151 | `groupby(level=0).sum()`: each date of the listing with the sum of its rows' counts. Its contract is stated by `DailyTables.GroupBySumSnoc`, `DailyTables.GroupBySumSumsDuplicates` and `DailyTables.GroupBySumSortedRows`. |
| `DailyTables.GroupBySumSnoc` | repostats.py:151 | Grouping one more row adds its counts to its date's running sum, or creates the date. |
| `DailyTables.GroupBySumSumsDuplicates` | repostats.py:150-151 | Two rows with the same date group to one row holding their sum. |
| `DailyTables.SortedRows` | repostats.py:46-48 | The frame `from_dict(orient="index")` builds from a table, sorted by `sort_index()`; the same listing is grouped at repostats.py:139-151. Its contract is stated by `DailyTables.SortedRowsSpec` and `DailyTables.SortedRowsOfRange`. |
| `DailyTables.SortedRowsSpec` | repostats.py:46-48 | The frame built from a table and sorted by date is in strictly ascending date order, holds exactly the table's dates, and carries each date's counts. |
| `DailyTables.GroupBySumSortedRows` | repostats.py:151 | Grouping the frame of a table, which has one row per date, gives the table back. |
| `DailyTables.SortedRowsOfRange` | repostats.py:46-48 | The sorted frame of a table whose dates are exactly lo..lo+n-1 is those n days in order. |
| `DailyTables.Densify` | repostats.py:154-157 | The reindex over the daily range from the least to the greatest date, with (0, 0) filled in. Its contract is stated by `DailyTables.DensifySpec`. |
| `DailyTables.DensifySpec` | repostats.py:153-157 | The densified table is dense and runs from the least to the greatest date. Every table entry is at its day's offset, and every other day is (0, 0). |
| `DailyTables.TableOf` | repostats.py:137 | `to_dict(orient="index")` of a listing: each date mapped to its row's counts. Its contract is stated by `DailyTables.TableOfSpec` and `DailyTables.DenseTableKeys`. |
| `DailyTables.TableOfSpec` | repostats.py:137 | Reading rows with distinct dates gives a table with exactly their dates, each with its row's counts. |
| `DailyTables.DenseTableKeys` | repostats.py:137 | A dense listing has distinct dates. Its table has exactly the days the listing spans, with their counts. |
| `DailyTables.DensifyTableOf` | repostats.py:137-157 | Densifying the table read from a dense listing gives the listing back. |
| `RankedList.Frame` | repostats.py:53-62 | The fetched items are kept in order, none added or dropped, with key, count and uniques unchanged. Paths keep their title; sources have none. |
| `RankedList.DropDuplicatesKeepLast` | repostats.py:90-92 | `drop_duplicates(subset=[key], keep="last")`. Its contract is stated by `RankedList.DropDuplicatesSpec`. |
| `RankedList.DropDuplicatesKeepsOrder` | repostats.py:90-92 | Dropping duplicates only removes rows: the result is a subsequence of the input, so the survivors keep their order. |
| `RankedList.DropDuplicatesSpec` | repostats.py:90-92 | The result has one row per key and the same keys as the input. Its rows are exactly the last occurrence of each key. |
| `RankedList.SortByCountDesc` | repostats.py:93 | `sort_values("count", ascending=False)`; the result is a permutation of its input. Count order is stated by `RankedList.SortByCountDescSpec`. |
| `RankedList.SortByCountDescSpec` | repostats.py:93 | The result is a permutation of its input with count non-increasing. It has the same keys, and distinct keys stay distinct. |
| `RankedList.ReferralTable` | repostats.py:76-99 | `_create_referral_dataframe` with the key read back (the corrected read): the fetched frame on a first run, otherwise the prior rows and the fetched rows deduplicated, last one kept, and sorted by count. Its contract is stated by `RankedList.ReferralTableSpec`, `RankedList.FetchedRowsWin` and `RankedList.ReferralTableRoundTrip`. |
| `RankedList.ReferralTableSpec` | repostats.py:76-99 | With the key read back (the corrected read; for the code as written see ## Findings), with a readable prior table the result has one row per key and the keys of both tables, with count non-increasing. Its rows are exactly the last occurrence of each key in the prior rows followed by the fetched rows. Without one, the result is the fetched frame as it is. |
| `RankedList.FetchedRowsWin` | repostats.py:88-92 | Every merged row with a fetched key is a fetched row. When the fetched list has one row per key, every fetched row is in the result. |
| `RankedList.FetchedRowReplacesPriorExample` | repostats.py:88-93 | With the key read back (the corrected read; for the code as written see ## Findings), a prior row K with count 5 and a fetched row K with count 10 leave only the fetched row. |
| `RankedList.ReferralTableRoundTrip` | repostats.py:84-98 | With the key read back (the corrected read; for the code as written see ## Findings), a stored table with one row per key, sorted by count, read back and merged with nothing fetched, is unchanged, up to the order of equal-count rows (the model's sort is stable; pandas' default sort need not be). |
| `RankedList.AsWrittenDropsPriorKeys` | repostats.py:86-87 | As written, on a prior file in the fetched frame's column order (one a first run writes), the merged keys are the fetched keys plus at most the missing key: no prior key survives. |
| `RankedList.ReferralTableAsWritten` | repostats.py:84-99 | `_create_referral_dataframe` as written: the merge of `RankedList.ReferralTable` run on the prior rows as `RankedList.ReadRankedAsWritten` reads them. Its contract is stated by `RankedList.AsWrittenDropsPriorKeys` and the as-written examples. |
| `RankedList.ReadRankedAsWritten` | repostats.py:86-87 | As written, a prior file in the fetched frame's column order (one a first run writes) gives the same number of rows, in order, each with its title, count and uniques kept and its key missing; a missing file gives nothing. |
| `RankedList.AsWrittenLosesReferrerExample` | repostats.py:86-93 | As written, prior a.com (5, 3) and fetched b.com (7, 4) give b.com and a key-less (5, 3) row. |
| `RankedList.KeylessPriorExample` | repostats.py:88-93 | A key-less prior row (5, 3) merged with fetched b.com (7, 4) gives b.com (7, 4) and then the key-less row. |
| `RankedList.AsWrittenRoundTripFailsExample` | repostats.py:86-93 | As written, a stored table a (5, 1), c (3, 1) read back and merged with nothing fetched does not come back: it becomes one key-less (3, 1) row. |
| `RankedList.CorrectedKeepsReferrerExample` | repostats.py:86-93 | With the key read back, the same inputs give b.com (7, 4) and then a.com (5, 3). |

## Left out

- HTTP: `_make_request`, the headers built in `__init__` and the `get_*` wrappers (repostats.py:10-41, 64-74, 101-104). They are network I/O with no reconciliation logic; the fetched data is a parameter.
- The snapshot folder: creating, zipping and deleting it (repostats.py:23-27, 180-202). This is filesystem plumbing.
- CSV reading and writing, and `print` logging. A prior file is an `Option` of its rows and the written file is the returned table. Any read error, including a missing file, is `None`.
- Clocks: `datetime.now` and `pd.Timestamp.now` (repostats.py:118) become the `today` parameter.
- Time zones: `utc=True` and `tz_convert(None)` (repostats.py:111, 148, 160) are not modelled; every date is a UTC day number.
- Date key types: the history read at repostats.py:137 has pandas `Timestamp` keys, while `_get_counts` produces `datetime.date` keys, and the membership test at repostats.py:173 compares them. If the two types never match, a day in both tables is inserted twice and summed at repostats.py:151 instead of going through the conflict rule. The model uses one canonical day type, so a day in both tables is always reconciled by the conflict rule.
- `RankedList.SortByCountDesc`: pandas' default sort is not stable, so the source leaves the order of rows with equal counts unspecified. The model uses a stable insertion sort, which fixes that order. `RankedList.SortByCountDescSpec` states only count order and permutation; `RankedList.ReferralTableRoundTrip` states exact equality, which in pandas holds only up to the order of rows with equal counts.
- `RankedList.ReadRankedAsWritten`: column order is not modelled, so the as-written read always drops the key. That holds for a prior file in the fetched frame's column order, which is what a first run writes. An as-written merge writes the columns in `pd.concat`'s order: the prior frame's remaining columns first, then the ones it lacks (repostats.py:90-92, 98). That puts the key last on the first merge. On the later as-written runs, `index_col=0` drops the first column instead: `count` for sources, `title` and then `count` for paths, then `uniques`. On those runs, prior keys survive with that field missing. After that, the key is the first column again. So every third as-written merge for sources (every fourth for paths) drops the key again and loses every prior key. `RankedList.AsWrittenDropsPriorKeys` and the as-written examples cover the first merge only.
- `DataFrame.last("14D")` is modelled as keeping the rows dated after the latest day minus 14 days. Its deprecation in recent pandas is not modelled.
- Column names (`total_views`, `unique_clones` and so on) are not modelled: a day's counts are a pair, and a ranked row has fixed fields.
- Integer widths: counts are unbounded integers. pandas' int64 overflow is out of scope.

## Findings

| source | as written | input that shows it | evidently intended | confidence | as-written member | corrected member |
|---|---|---|---|---|---|---|
| repostats.py:86-87 | The prior ranked table is read with `index_col=0` and then `reset_index(drop=True)`. The file was written with `index=False` (repostats.py:98). For a prior file in the fetched frame's column order (one a first run writes), column 0 is the key (`referrer` or `path`), and it is dropped. Every prior row comes back with a missing key, and `drop_duplicates` keeps only the last of them. Because `pd.concat` rotates the column order, the key is first again, and the loss recurs, every third merge for sources and every fourth for paths. | A stored table holding a.com (5, 3), as a first run writes it, then a fetch of b.com (7, 4): the stored table becomes b.com (7, 4) plus a key-less (5, 3) row, and a.com is lost. | Prior rows keep their keys, so the merged table holds the keys of both tables: b.com (7, 4) then a.com (5, 3). | not executed | `RankedList.AsWrittenLosesReferrerExample`, `RankedList.AsWrittenRoundTripFailsExample` | `RankedList.ReferralTableSpec`, `RankedList.ReferralTableRoundTrip` |
