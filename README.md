# AirNow PM2.5 report: the data pipeline in Dafny

This project models the data path of the AirNow PM2.5 report generator and proves its
properties. The report generator fetches the last day of hourly AirNow observation files,
keeps the Cambridge stations, and produces two tables: a per-station wide table and a
cross-station hourly average. The model covers three parts:

- **The hour window** (`HourWindow`). `past_n_hours(dt, n)` gives the `n` whole hours
  before the top of `dt`'s hour, oldest first. `create_plot` asks for
  `past_n_hours(ct - 1 hour, 24)`. Instants are aware UTC `datetime`s, counted in
  microseconds since 1970.
- **The archive address** (`ArchiveUrl`, with `Digits` and `Calendar`).
  `format_hourly_data(dt)` builds
  `https://s3-us-west-1.amazonaws.com//files.airnowtech.org/airnow/YYYY/YYYYMMDD/HourlyAQObs_YYYYMMDDHH.dat`
  from three `strftime` calls. The model includes the matching decoder. The two are proved
  inverse to each other, so the address identifies the date and hour exactly.
- **`process`** (`Processor`, with `ValidTime` and `Ordering`). It works in five steps:
  - the `AQSID` filter against `CAMBRIDGE_STATIONS`;
  - the `"%m/%d/%Y %H:%M"` parse of `ValidDate + " " + ValidTime`;
  - the sort by date;
  - `groupby("date").mean()`, giving the average view;
  - `pivot(index="date", columns="SiteName", values="PM25")`, giving the wide view.

  Each step is a function with its own contract. The end-to-end theorems state both views
  and both failure modes directly in terms of the input rows.

Modules: `Wrappers` (Option and Result), `Digits` (zero-padded numerals), `Ordering`
(strict total orders, sorted-distinct lists, Python string order), `Calendar` (the
`datetime` fields and their chronological order), `HourWindow`, `ArchiveUrl`, `ValidTime`
and `Processor`.

Three behaviours of the code that the model keeps:

- **Dates that do not parse.** `process` calls `pd.to_datetime` without `errors=`, so
  pandas' default `"raise"` applies and no row is dropped. A selected row whose date text
  is present but unreadable fails the whole call. `Processor.ParseDates` returns
  `UnparsableDate`, and `Processor.ProcessFailure` states exactly when that happens.
- **Rows of other stations.** The filter comes before the parse, so these rows' dates are
  never read and cannot make the call fail.
- **The report window.** The newest fetched hour starts two hours before the top of the
  current hour, and the oldest starts 25 hours before it. The hour in progress and the
  hour before it are never fetched (`HourWindow.ReportWindowHours`).

## Model

| member | source | states |
|---|---|---|
| HourWindow.FloorHour | generate_report.py:24 | the floored instant is hour-aligned and is at most, and less than an hour before, the input |
| HourWindow.FloorHourShift | generate_report.py:24 | shifting by whole hours before flooring shifts the floor by the same whole hours |
| HourWindow.Reverse | generate_report.py:25 | the `[::-1]` slice: same length, and element `i` is the input's element `i` places from the end |
| HourWindow.HoursBack | generate_report.py:25 | the comprehension has `max(n, 0)` elements, newest first: the first is one hour before the floored instant, and each further one is an hour earlier |
| HourWindow.PastNHours | generate_report.py:23-25 | the list has `max(n, 0)` elements; element `i` is `n - i` whole hours before the top of `dt`'s hour |
| HourWindow.PastNHoursAligned | generate_report.py:24-25 | every element has zero minutes, seconds and microseconds |
| HourWindow.PastNHoursAscending | generate_report.py:25 | after the reversal, consecutive elements are one hour apart and the list is strictly ascending |
| HourWindow.PastNHoursEnds | generate_report.py:25 | the newest element is one hour before the top of `dt`'s hour; the oldest is `n` hours before it |
| HourWindow.PastNHoursMembers | generate_report.py:23-25 | an instant is in the list exactly when it is hour-aligned and lies in the `n` hours before the top of `dt`'s hour |
| HourWindow.PastNHoursOnlyHourMatters | generate_report.py:24 | the result depends only on the hour of `dt`, not on its minutes or finer fields |
| HourWindow.ReportWindow | generate_report.py:48 | the report fetches 24 hours |
| HourWindow.ReportWindowHours | generate_report.py:46-48 | the fetched hours are the 24 consecutive hours ending two hours before the top of the current hour |
| Digits.ValueOfPad | airnow_pm_forecast/dat_download.py:7-9 | reading back a zero-padded numeral gives the number written |
| Digits.PadOfValue | generate_report.py:34-38 | any digit string is the zero-padded numeral of its value at its own width |
| ArchiveUrl.Strftime | airnow_pm_forecast/dat_download.py:7-9 | the text has the format's total width and is all digits |
| ArchiveUrl.StrftimeAppend | airnow_pm_forecast/dat_download.py:7-9 | formatting two directive lists one after the other equals formatting their concatenation |
| ArchiveUrl.HourlyDataUrl | airnow_pm_forecast/dat_download.py:6-13 | the address has a fixed length, starts with the archive prefix and ends in `.dat` |
| ArchiveUrl.SegmentsNest | airnow_pm_forecast/dat_download.py:7-9 | the year segment is a prefix of the date segment, which is a prefix of the date-hour segment |
| ArchiveUrl.UrlFields | airnow_pm_forecast/dat_download.py:10-12 | position and content of each field: separators, `/HourlyAQObs_`, the repeated year and date, and the numbers each field denotes |
| ArchiveUrl.ParseOfUrl | airnow_pm_forecast/dat_download.py:6-13 | decoding the address of `dt` gives back `dt`'s year, month, day and hour |
| ArchiveUrl.UrlOfParse | airnow_pm_forecast/dat_download.py:6-13 | every text the decoder accepts is the address of each `datetime` in the hour it decodes to |
| ArchiveUrl.UrlIdentifiesHour | airnow_pm_forecast/dat_download.py:6-13 | two `datetime`s get the same address if and only if they share year, month, day and hour |
| Calendar.DaysInMonth | generate_report.py:34-38 | months have 28 to 31 days, and 29 exactly for February of a Gregorian leap year |
| Calendar.BeforeIsStrictTotalOrder | generate_report.py:39 | chronological order on `datetime` fields is a strict total order |
| Ordering.LexLessIsStrictTotalOrder | generate_report.py:41 | Python's string order on site names is a strict total order |
| Ordering.AscendingUnique | generate_report.py:40-41 | two strictly ascending lists with the same members are equal |
| ValidTime.Parse | generate_report.py:33-38 | an accepted text has 16 characters and yields a valid `datetime` with no seconds or microseconds; `ParseOfFormat` and `FormatOfParse` give the exact inverse |
| ValidTime.ParseOfFormat | generate_report.py:34-38 | parsing the `MM/DD/YYYY HH:MM` text of an on-the-minute `datetime` gives it back |
| ValidTime.FormatOfParse | generate_report.py:34-38 | every accepted text is an on-the-minute `datetime` written back in the same format, so distinct texts never parse to the same instant |
| Processor.SelectStations | generate_report.py:10-31 | a row is kept exactly when its AQSID is one of the five stations; the result is no longer than the input |
| Processor.SelectKeepsMultiplicity | generate_report.py:31 | each station row is kept as many times as it occurs in the input; other rows are never kept |
| Processor.SelectAppend | generate_report.py:31 | the filter distributes over concatenation, so it keeps the rows' order |
| Processor.SelectIdempotent | generate_report.py:31 | filtering twice is the same as filtering once |
| Processor.ParseDates | generate_report.py:33-39 | succeeds exactly when every selected row's date text parses; row `i` then becomes reading `i` with its parsed date; otherwise the error names an unparsable text of some row |
| Processor.InsertByDate | generate_report.py:39 | inserting keeps the readings in date order and adds exactly the one reading |
| Processor.SortByDate | generate_report.py:39 | the result is in non-decreasing date order and is a permutation of the input |
| Processor.SortByDateTallies | generate_report.py:39 | sorting changes no per-date count, per-date sum or per-cell count |
| Processor.ReadingTallies | generate_report.py:31-39 | the parsed readings have the per-date counts and sums and per-cell counts of the station rows |
| Processor.ReadingsOfRows | generate_report.py:31-39 | the parsed readings are exactly the station rows, each with its parsed date |
| Processor.GroupMean | generate_report.py:40 | there are at most as many averaged rows as readings; its dates and values are stated by `GroupMeanDateSet`, `GroupMeanAscending` and `GroupMeanValues` |
| Processor.GroupMeanDateSet | generate_report.py:40 | the average view has a row at a date exactly when some reading is at that date |
| Processor.GroupMeanAscending | generate_report.py:40 | the average view's dates are strictly ascending, so each occurs once |
| Processor.GroupMeanValues | generate_report.py:40 | each row of the average view holds the sum at its date divided by the count at its date |
| Processor.Cells | generate_report.py:41 | the pivot's cells exist exactly when no cell is filled twice; the cells present are exactly those some reading fills, each holding that reading's PM25; an error names a cell filled at least twice |
| Processor.Pivot | generate_report.py:41 | succeeds exactly when no cell is filled twice; the index is the distinct dates, strictly ascending; the columns are the distinct site names in string order; the cells are exactly those some reading fills, each with that reading's PM25; an error names a cell filled at least twice |
| Processor.PivotIndex | generate_report.py:40-41 | over sorted readings, the pivot's index equals the average view's dates |
| Processor.Process | generate_report.py:28-42 | when it succeeds, the wide view's index equals the average view's dates; both views and both errors are stated by `ProcessFailure`, `ProcessAverageView` and `ProcessWideView` |
| Processor.ProcessFailure | generate_report.py:28-42 | `process` succeeds exactly when every station row's date parses and no two station rows share a parsed date and site name; an unparsable-date error names a station row's text; a duplicate error names a date and site two station rows share |
| Processor.CellsFailure | generate_report.py:41 | after a successful parse, the pivot fails exactly when two station rows share a cell, and its error names such a cell |
| Processor.ProcessAverageView | generate_report.py:40 | the average view lists each parsed station-row date once, ascending, with the mean PM25 of the station rows at that date |
| Processor.ProcessWideView | generate_report.py:41 | the wide view's index is the average view's dates; its columns are the station site names, each once, in string order; its cells are exactly those some station row fills, each holding that row's PM25 |
| Processor.WideColumns | generate_report.py:41 | the columns are strictly ascending in string order and are exactly the site names of the station rows |
| Processor.WideCells | generate_report.py:41 | a cell is present exactly when some station row fills it, and it holds that row's PM25 |
| Processor.ProcessIgnoresOtherStations | generate_report.py:31 | removing the rows of other stations first changes neither the result nor the error |

## Left out

- `download_hourly_data` (airnow_pm_forecast/dat_download.py:16-20): fetching and reading the CSV is network I/O; only the address it fetches is modelled.
- `pd.concat` of the fetched tables (generate_report.py:47-49): the model's input to `process` is the concatenated rows.
- The link from the window to the address: the model does not convert instants (`HourWindow`) into calendar fields (`ArchiveUrl`), so it does not prove each window hour yields the address of that hour.
- `current_utc_time` (generate_report.py:19-20): the clock becomes the parameter `ct` of `ReportWindow`.
- Plotting and saving the figure (generate_report.py:54-86): rendering and file output are outside the model.
- Processor.SelectStations: `AQSID` is compared as text. How `read_csv` infers a column's type is not modelled; an `AQSID` column read as integers would match none of the five strings.
- Processor.Row: every cell is assumed present, so `AQSID`, `SiteName`, `ValidDate` and `ValidTime` always hold text and `PM25` a number. pandas reads a blank cell as NaN. A blank date or time makes the joined text NaN, which `pd.to_datetime` turns into NaT without raising, even under `"raise"`. A blank `SiteName` gives `pivot` a null column label. The model's `string` fields express neither, so it does not capture such rows or what the grouping and the pivot do with them.
- The missing-column `KeyError` of the column selection (generate_report.py:29): a row carries exactly the five selected columns by construction.
- Processor.GroupMeanValues: the mean is stated over exact reals, without floating-point rounding and without pandas skipping NaN values.
- Processor.Cells: PM25 values are reals, so a NaN reading is not modelled; a pair the map lacks stands for a NaN cell.
- Processor.SortByDate: pandas' default sort is not stable, so the order among readings with equal dates is unspecified. The model fixes one order and claims only date order and permutation. No theorem about the two views depends on that order.
- ValidTime.Parse: accepts only the zero-padded `MM/DD/YYYY HH:MM` shape. Python's `strptime` directives also accept numbers written without padding, which the model rejects.
- ValidTime.Parse: accepts years 1 to 9999 as `datetime` does. pandas' nanosecond `Timestamp` rejects dates outside 1677-09-21 to 2262-04-11; that bound is not modelled.
- ArchiveUrl.HourlyDataUrl: requires year 1000 or later. For earlier years the width of `%Y` depends on the platform's C library.
- HourWindow.PastNHours: instants are unbounded integers, so the `OverflowError` that `datetime` subtraction raises near year 1 is not modelled.
- Time zones: every instant is UTC, as both `current_utc_time` and `utc=True` make it.
