# Daily download counts: record selection and the trailing-year series

This project models the data-shaping core of `scripts/plot_downloads.py`. That
script fetches a package's daily download counts from the pypistats "overall"
endpoint and charts the last 365 days. The model covers the two pure steps
between the HTTP call and the chart:

- **Fetcher** (`fetcher.dfy`): the tail of `fetch_pypistats_daily`. It takes the
  payload's `data` list of `(category, date, downloads)` records and keeps them
  as follows. With no records it returns an empty table. Without any
  `category` key it keeps every record. If some record is `without_mirrors` it
  keeps only those records. Otherwise it keeps the records whose category equals
  the first record's. A non-numeric count becomes 0. The rows are then sorted by
  date.
- **LastYear** (`last_year.dfy`): `ensure_last_year_series`. It lays the table
  onto the 365 consecutive days ending on `today`. Each day gets the table's
  count for that date, or 0 when the table has none. Rows outside the window are
  dropped. A table with a repeated date makes pandas' `reindex` raise; the model
  returns `Err(DuplicateDates)` for it. This is so even when the repeated date
  lies outside the window (`DuplicateOutsideWindowStillFails`).

Representation: dates are integer day numbers, a count is `Option<int>`
(`None` = not numeric), a category is `Option<string>` (`None` = the record has
no `category` key, which pandas stores as NaN), and `today` is a parameter.

This script keeps the `without_mirrors` records when any are present. It
always charts exactly 365 days ending today. Counts are not checked to be
non-negative. Two more behaviours follow from pandas:
- pandas compares NaN as unequal to everything. So when the first record has no
  category but a later one does, the fallback mask selects nothing
  (`FetchFirstUncategorisedKeepsNothing`).
- `sort_values` uses an unstable sort by default. So `Fetch` only promises
  "sorted by date and a permutation of the selected rows". The model's
  insertion sort is one admissible order. `SeriesIgnoresRowOrder` shows that the
  choice cannot change the series.

## Model

| member | source | states |
|---|---|---|
| `Fetcher.Fetch` | scripts/plot_downloads.py:23-40 | no records give an empty table; the table is sorted ascending by date and is a permutation of the selected, normalised records |
| `Fetcher.SelectCategory` | scripts/plot_downloads.py:29-34 | a record is kept exactly when the selection rule (`Chosen`) admits it, and then as often as it occurs in the payload |
| `Fetcher.KeepCategory` | scripts/plot_downloads.py:31-34 | the category mask keeps exactly the records whose category equals the wanted one, each as often as it occurs; a missing category matches nothing |
| `Fetcher.Rows` | scripts/plot_downloads.py:36-37 | one row per record, in order, each with the record's date and its count if numeric and 0 otherwise |
| `Fetcher.SortByDate` | scripts/plot_downloads.py:38 | the result is ascending by date and has the same rows as the input |
| `Fetcher.FetchKeepsExactlyChosen` | scripts/plot_downloads.py:29-40 | every table row comes from a chosen record, with its date unchanged and its count kept if numeric and 0 otherwise; every chosen record gives a row |
| `Fetcher.FetchPrefersWithoutMirrors` | scripts/plot_downloads.py:31-32 | if any record is `without_mirrors`, every row comes from a `without_mirrors` record and every such record appears in the table |
| `Fetcher.FetchFallsBackToFirstCategory` | scripts/plot_downloads.py:33-34 | with no `without_mirrors` record and a categorised first record, the table is made of exactly the records that share the first record's category |
| `Fetcher.FetchFirstUncategorisedKeepsNothing` | scripts/plot_downloads.py:33-34 | with no `without_mirrors` record, a first record without a category and a category column present, the table is empty |
| `Fetcher.FetchWithoutCategoryColumnKeepsAll` | scripts/plot_downloads.py:30 | when no record has a category, the table holds every record's normalised row, each as often as the record occurs |
| `LastYear.DateIndex` | scripts/plot_downloads.py:45-47 | 365 days, the first `today - 364`, the last `today`, consecutive days one apart, and exactly the days of the window |
| `LastYear.CountOn` | scripts/plot_downloads.py:52 | the fill value 0 when no row has the day; the row's count when one has it and dates are unique |
| `LastYear.LastYearSeries` | scripts/plot_downloads.py:43-54 | fails exactly when a non-empty table repeats a date; otherwise 365 days from `today - 364` to `today`, one day apart, each holding the table's count for that day or 0; an empty table gives 365 zeros |
| `LastYear.OutsideWindowIgnored` | scripts/plot_downloads.py:52 | for a table with unique dates, dropping every row dated outside the window leaves the series unchanged |
| `LastYear.DuplicateOutsideWindowStillFails` | scripts/plot_downloads.py:52 | a date repeated outside the window still makes the series fail, while the same table without its outside rows succeeds |
| `LastYear.SeriesIgnoresRowOrder` | scripts/plot_downloads.py:52 | two tables with the same rows in any order give the same series, error included |
| `LastYear.SeriesOfFetchedTable` | scripts/plot_downloads.py:38-54 | the series of the sorted table equals the series of the selected records in payload order, so the sort does not affect the chart |

## Left out

- The HTTP GET, `raise_for_status` and JSON decoding (lines 18-21) are network I/O. The model's input is the payload's `data` list.
- `date.today()` (line 45) reads the clock. `today` is a parameter.
- `pd.to_datetime` and `pd.to_numeric` (lines 36-37) parse strings. Dates come in as day numbers and counts as `Option<int>`.
- `astype(int)` truncates a fractional numeric count toward zero, and pandas stores it as a 64-bit integer. Counts here are already unbounded integers, so neither is modelled.
- A category that is an explicit JSON `null` or not a string is not modelled. `None` stands only for a missing `category` key. In the source, a payload whose every category is `null` still has a category column, so line 34 compares against a null first category and yields an empty table. The model's nearest input, all `None`, has no column and keeps every record.
- A record without a `date` or `downloads` key is not modelled. Nor is a payload where no record has one of those keys, in which case pandas raises `KeyError`.
- The series' `name` attribute (lines 50, 53) and its pandas index type carry no data and are not modelled.
- Fetcher.Fetch: the relative order of rows that share a date is left unspecified, as pandas' default unstable sort leaves it.
- `plot_series` (lines 57-75) only renders a chart and writes a file.
- `main` and argument parsing (lines 78-90) are CLI plumbing.
