# Health dashboard tables, modelled in Dafny

The dashboard shows patient registrations, patient visits, health-worker
records and health-worker clock-ins for a set of facilities. Behind its charts
is a thin layer of table operations, and this project models that layer as
Dafny functions over sequences of rows, with proofs about them. The layers are:

- the start-up preparation of the joined patients/visits table (`parse_time`,
  the `time_in` clean-up and dropping rows without an hour);
- the date-range and multi-select facility filters;
- the group-by counts and percentage-of-whole tables of the human-resources
  page, including the top-10 cadre table and the cadre treemap;
- the distinct-employee count per date on the attendance page;
- the cascading State → LGA → Ward → Facility option lookups;
- the headline indicators and fixed-axis series of the home page.

A table is a `seq` of row records, and a cell that may be empty is an
`Option`. Dates are day numbers, and the calendar year of a clock-in row is
its own column. Percentages are exact `real`s.

pandas sorts group-by keys ascending and drops missing keys. The model gives
keys one total order (`Grouping.Key`, `Grouping.KeyLess`). Every
`groupby(...).size()` result is proved ascending, with one row per present
key, each count equal to the multiset count of its key. The other group-by
tables are proved ascending with one row per present key, and their totals
are stated separately: a sum of weights (`Grouping.GroupSum`), a count of
rows having an email (`HumanResources.EmailCounts`), and a squared row count
(`HumanResources.TreemapGroups`). Filters and joins are proved to keep each
row exactly as often as pandas does: a filter keeps every occurrence of a
row that passes, and an inner join holds a matching pair once per pair of
rows holding it.

The start-up code rewrites the joined visitation table in place, column by
column. That step is a class, `Visitation.VisitationTable`, whose methods
reassign its `rows`. `Visitation.LoadVisitations` is proved to leave exactly
the table that the pure function `Visitation.Prepared` describes. Everything
else in the source is made of expressions without loops or mutation, and is
modelled as functions.

Where the code departs from its own comments or from what a reader would
expect, the model follows the code:

- `dropna(subset=["hour"], inplace=True)` removes a visit whose `time_in` is
  unreadable from the whole prepared table, not only from the hourly charts
  (`Visitation.UnreadableTimeDropsVisit`).
- The employment-type table is sorted by type name descending, although a
  comment calls it alphabetical (`HumanResources.EmploymentTypePercentages`).
- Each cadre total of the treemap is the square of the cadre's row count. A
  per-row `transform("count")` is summed again per group, and the model keeps
  this (`HumanResources.TreemapGroups`).
- `prepare_emp_count_stackedbar` is never called. The stacked bar is drawn from
  the employment-type table, re-sorted ascending
  (`HumanResources.StackedBarSegments`). Both are modelled.

## Model

| member | source | states |
|---|---|---|
| `Tables.FacilityFilter` | components/callbacks.py:82-85 | With no selection (`None` or an empty list), the table comes back unchanged. Otherwise exactly the rows whose facility is among the selected are kept, each as often as before. |
| `Tables.FacilityFilterIdempotent` | components/callbacks.py:82-85 | Filtering twice with the same selection equals filtering once. |
| `Tables.EmptySelectionIsNoSelection` | components/callbacks.py:82-85 | An empty selection list and no selection both return the table. |
| `Tables.DateFilter` | components/callbacks.py:274-277 | Keeps exactly the rows with `start <= date <= end`, both ends included, each as often as before. |
| `Tables.DateThenFacility` | components/callbacks.py:273-283 | Date filter followed by facility filter: a row is kept iff its date is in range and, when a selection is made, its facility is selected. |
| `Tables.InnerJoin` | components/callbacks.py:17-22 | A pair is in the inner join iff its left row and right row come from the two tables and their keys are equal. A matching pair occurs (left count) × (right count) times, and a non-matching pair never. |
| `Tables.InnerJoinAppend` | components/callbacks.py:17-22 | The join keeps left-table order: joining `a + b` is joining `a`, then joining `b`. |
| `Tables.UnmatchedRowDropped` | components/callbacks.py:17-22 | A left row whose key matches no right row adds nothing to the join. |
| `Tables.Unique` | components/callbacks.py:958 | `.unique()` keeps every value once, in order of first appearance, and nothing else. |
| `Grouping.GroupCount` | components/callbacks.py:88-90 | `groupby(col).size()` gives ascending keys, one per present value. Each count is the number of rows with that value (at least 1), and the counts add up to the number of rows whose value is present. |
| `Grouping.GroupSum` | components/callbacks.py:173-175 | A weighted group-by gives ascending keys, one per present key. Each total is the sum of its rows' weights, and the totals add up to the weight of all rows with a present key. |
| `Grouping.WeightedSum` | components/callbacks.py:196-198 | When a row's weight depends only on its key, a group's sum is that weight times the group's row count. |
| `Grouping.Buckets` | components/callbacks.py:370-372 | `{k: counts.get(k, 0) for k in domain}` gives one bucket per domain entry, in domain order, holding that entry's row count (0 when absent). Over a repeat-free domain the buckets count at most the rows with a present value. |
| `Grouping.KeyLessTransitive` | components/callbacks.py:88-90 | The order group keys are sorted by is transitive. |
| `Grouping.KeyLessTotal` | components/callbacks.py:88-90 | Any two different keys are ordered one way or the other. |
| `Ranking.SortDesc` | components/callbacks.py:573-575 | `sort_values(score, ascending=False)` returns a permutation of the table ordered by non-increasing score. |
| `Ranking.Top` | components/callbacks.py:670-673 | `sort_values(..., ascending=False).head(n)` returns min(n, rows) rows of the table, by non-increasing score. No row left out scores higher than a row kept. |
| `Ranking.ValueCounts` | components/callbacks.py:319-325 | `value_counts()` gives one row per present value, largest count first, counts equal to row counts. Their sum is the number of rows with a present value. |
| `Text.Strip` | components/callbacks.py:35-37 | `str.strip()` yields the piece after the leading white space. Everything cut away is white space, and the result neither starts nor ends with white space. |
| `Text.StripIdempotent` | components/callbacks.py:35-37 | Stripping a stripped string changes nothing. |
| `Text.JoinSplit` | components/callbacks.py:41-50 | Splitting a clock string on `:` and joining the pieces back gives the string. |
| `Text.Thousands` | pages/home.py:42 | `"{:,}"` puts a comma exactly at every fourth place from the right. Every other character is a digit, and there is no leading comma. |
| `Text.DropCommasThousands` | pages/home.py:42 | Removing the commas from `"{:,}".format(n)` gives `str(n)`. |
| `Text.ThousandsRoundTrip` | pages/home.py:42 | The formatted count, commas removed, reads back as the count. |
| `Text.DecimalValue` | pages/home.py:42 | `str(n)` reads back as `n`. |
| `TimeParse.TryFormat` | components/callbacks.py:43-48 | One `to_datetime(s, format=...)` call either gives an hour of at most 23, or "not a time" exactly for pandas' NaT strings, or fails. |
| `TimeParse.ParseTime` | components/callbacks.py:41-50 | `HH:MM` is tried first and wins. `HH:MM:SS` is tried only when the first format raises. The hour is missing iff neither format gives one, and a returned hour is at most 23. |
| `TimeParse.FormatsExclusive` | components/callbacks.py:41-50 | No string matches both formats. |
| `TimeParse.ParsesHourMinute` | components/callbacks.py:43 | Any `H:M` to `HH:MM` string with an hour of at most 23 and a minute of at most 59 matches the first format, and reads back as the value of its hour field. |
| `TimeParse.ParsesHourMinuteSecond` | components/callbacks.py:44-48 | A time with a seconds field (each field one or two digits, within range) fails the first format and reads back through the second as its hour field. |
| `TimeParse.HourComesFromFields` | components/callbacks.py:41-50 | Every string that gets an hour is `H:M` or `H:M:S` (one or two digits per field, hour ≤ 23, minute and second ≤ 59), and the hour is the value of its hour field. |
| `TimeParse.MissingTimeHasNoHour` | components/callbacks.py:35-50 | A missing `time_in` cell becomes `"nan"`, which has no hour. |
| `TimeParse.HourOutOfRange` | components/callbacks.py:43 | `"24:00"` has no hour. |
| `Entities.AgeBuckets` | pages/home.py:408-413 | The age-group series has one bar per entry of the eight-group order, in that order. Each bar is the row count of its group (0 when absent), and all bars together count at most the rows. |
| `Entities.LabelBuckets` | components/callbacks.py:370-372 | One bucket per label of a repeat-free label list, in list order, each the row count of its label. All buckets together count at most the rows. |
| `Visitation.Joined` | components/callbacks.py:17-22 | The joined table holds exactly the (patient, visit) pairs with equal `patient_id`, before any column is rewritten. Each such pair occurs (patient count) × (visit count) times. |
| `Visitation.Prepared` | components/callbacks.py:34-57 | Every prepared row comes from a matching pair, with its stripped `time_in` text and an hour of at most 23. The ready form of a pair occurs (patient count) × (visit count) times when the ids match and its `time_in` parses, and never otherwise. |
| `Visitation.ReadyRowPresent` | components/callbacks.py:53-57 | A pair with equal ids has its ready row in the prepared table iff its `time_in` parses. |
| `Visitation.PreparedRowsHaveHours` | components/callbacks.py:53-57 | After set-up every row has an hour of the day. |
| `Visitation.UnreadableTimeDropsVisit` | components/callbacks.py:53-57 | A visit whose `time_in` neither format reads is in no prepared row. |
| `Visitation.VisitationTable.constructor` | components/callbacks.py:17-22 | The table starts as the inner join. |
| `Visitation.VisitationTable.NormaliseTimes` | components/callbacks.py:35-37 | Every `time_in` cell becomes the stripped text of the cell, and nothing else changes. |
| `Visitation.VisitationTable.AddHours` | components/callbacks.py:54 | Every row gets the hour `parse_time` finds in its `time_in` text, and nothing else changes. |
| `Visitation.VisitationTable.DropMissingHours` | components/callbacks.py:57 | Removes in place exactly the rows without an hour, keeping the others in order. |
| `Visitation.SetUpIsReady` | components/callbacks.py:35-54 | Stripping `time_in`, then parsing the hour from the stripped text, turns each joined row into its ready form. |
| `Visitation.LoadVisitations` | components/callbacks.py:17-57 | The start-up sequence leaves a fresh table equal to `Prepared`. |
| `Visitation.InWindow` | components/callbacks.py:273-283 | The charts' rows are those whose visit date is in range and, when facilities are selected, whose facility is selected. Each kept row occurs as often as in the table. |
| `Visitation.MaritalCounts` | components/callbacks.py:319-325 | Marital counts with missing statuses read as `"Unknown"`: largest first, one row per status, counts add up to the number of rows. |
| `Visitation.MissingStatusIsUnknown` | components/callbacks.py:320-323 | A row with no marital status makes `"Unknown"` one of the keys. |
| `Visitation.AgeHistogram` | components/callbacks.py:359-372 | Exactly the eight buckets `0-4 … 60+` in order, each the row count of its group (0 when absent), summing to at most the row count. |
| `Visitation.VisitationCharts` | components/callbacks.py:287-290 | No charts iff no row passes the filters. Otherwise the marital counts (totalling the filtered rows) and the age histogram of the filtered rows. |
| `Visitation.DayCounts` | components/callbacks.py:525-529 | `groupby("start_date").size()` gives ascending dates, each with its visit count (at least 1), adding up to all rows. |
| `Visitation.VisitationVolume` | components/callbacks.py:511-529 | The visit series over the window: ascending dates inside `[start, end]`, counts adding up to the filtered rows. |
| `HumanResources.MergeHr` | components/callbacks.py:70-72 | The HR merge holds exactly the (personal, employment) pairs with equal email. Each such pair occurs (personal count) × (employment count) times. |
| `HumanResources.UnemployedWorkerDropped` | components/callbacks.py:70-72 | A worker with no employment record under the same email is not in the merge. |
| `HumanResources.ByFacility` | components/callbacks.py:82-85 | The HR facility filter: the table unchanged without a selection. Otherwise exactly the rows stationed at a selected facility, each as often as before. |
| `HumanResources.CountsByQualification` | components/callbacks.py:79-92 | Ascending qualifications of the filtered workers, each count at least 1 and equal to its row count. Together they count every filtered worker whose qualification is recorded. |
| `HumanResources.QualificationChart` | components/callbacks.py:572-575 | The same counts, largest first, with the same keys and the same total. Each bar is the number of filtered workers holding its qualification, at least 1. |
| `HumanResources.OtherLabels` | components/callbacks.py:105-116 | The labels an ordered categorical turns into NaN: exactly the present labels that are no category, ascending, each with its cell count (at least 1). |
| `HumanResources.ByCategory` | components/callbacks.py:105-116 | An ordered categorical, then sorted with NaN last. Present categories come first, once each, in category order, with their counts. After them comes one code -1 bar per label outside the categories, in ascending label order, each with that label's count. |
| `HumanResources.AgeGroupDistribution` | components/callbacks.py:95-118 | The HR age chart: the categories some filtered worker falls in, in the order `< 20 … 60+`, with counts. Then one code -1 bar per non-category label of a filtered worker, in ascending label order, with its count. |
| `HumanResources.Percentages` | components/callbacks.py:133-135 | `counts / counts.sum() * 100`: each share is its count's percentage of the sum. The shares add up to 100 unless the sum is 0, when all are missing. |
| `HumanResources.CountShares` | components/callbacks.py:129-135 | Group counts with their percentages of all recorded cells. A non-empty table's percentages sum to 100. |
| `HumanResources.CadrePercentages` | components/callbacks.py:121-137 | Cadre table: ascending cadres of the filtered workers, each count the number of workers of that cadre. The percent is count over all recorded cadres × 100, and the percentages sum to 100 when non-empty. |
| `HumanResources.TopCadres` | components/callbacks.py:670-673 | At most ten rows of the cadre table, by non-increasing percentage. No cadre left out has a larger share than one kept. |
| `HumanResources.SumPercentReverse` | components/callbacks.py:158-160 | Re-ordering the type table keeps the sum of its percentages. |
| `HumanResources.EmploymentTypePercentages` | components/callbacks.py:140-162 | Employment-type table: types strictly descending, counts equal to row counts, percentages of all recorded types, summing to 100 when non-empty. |
| `HumanResources.DescendingCountShares` | components/callbacks.py:147-160 | A column's count table sorted by key descending: keys strictly descending, one per present value, counts equal to row counts, percentages of the recorded cells summing to 100 when non-empty. |
| `HumanResources.StackedBarSegments` | components/callbacks.py:765-771 | The stacked bar re-sorts the type table ascending. The result is the type table's rows, and it equals the grouped table in its original ascending order. |
| `HumanResources.EmailEntriesSum` | components/callbacks.py:173-175 | A type's weighted sum is the number of workers of that type who have an email. |
| `HumanResources.StackedCount` | components/callbacks.py:173-175 | A group of `groupby("employment_type")["email"].count()` counts the workers of its type who have an email. |
| `HumanResources.EmploymentStackedBar` | components/callbacks.py:165-182 | One row per type of a filtered worker, ascending, counting that type's workers with an email. Each is a percentage of all filtered workers having both a type and an email, and the percentages sum to 100 when there is such a worker. |
| `HumanResources.EmailCounts` | components/callbacks.py:173-175 | Ascending types, each counting its workers who have an email. The counts add up to the workers having both a type and an email. |
| `HumanResources.EmailShares` | components/callbacks.py:173-181 | The email counts by type, each with its percentage of their sum. The percentages add up to 100 when the sum is positive. |
| `HumanResources.SquareGroup` | components/callbacks.py:196-210 | Summing a per-row `transform("count")` over a group gives the square of the group's row count. |
| `HumanResources.TreemapGroups` | components/callbacks.py:193-211 | Treemap groups: ascending cadres (missing read as `"Unknown"`), each total the square of its row count. The totals add up to the sum of the transformed column. |
| `HumanResources.TreemapTable` | components/callbacks.py:200-216 | Each treemap total as a percentage of the sum of the transformed column. The percentages add up to 100 when that sum is positive. |
| `HumanResources.CadreTreemap` | components/callbacks.py:185-223 | At most ten treemap rows, by non-increasing total. No row left out has a larger total than one kept. |
| `HumanResources.MissingCadreIsUnknown` | components/callbacks.py:192-193 | A filtered worker without a cadre is counted under `"Unknown"`. |
| `HumanResources.TreemapSumsTo100` | components/callbacks.py:200-216 | Once one worker passes the filter, the treemap percentages add up to 100. |
| `Attendance.InYear` | components/callbacks.py:889-891 | The rows of one year, each as often as before. |
| `Attendance.AttendanceRows` | components/callbacks.py:880-891 | With a year chosen (not `None`, not 0), the whole table restricted to that year. Otherwise the rows with `start <= date <= end`. |
| `Attendance.YearOverridesRange` | components/callbacks.py:884-891 | Once a year is chosen, the date range makes no difference. |
| `Attendance.EmployeesOn` | components/callbacks.py:894-896 | The distinct employee ids recorded on a date: exactly the ids of that date's rows, missing ids left out. |
| `Attendance.EmployeesAtMostRows` | components/callbacks.py:894-896 | A date never has more distinct employees than rows. |
| `Attendance.DailyHeadcount` | components/callbacks.py:893-898 | `groupby("date")["employee_id"].nunique()` gives one point per date of the table, dates strictly increasing. Each value is that date's number of distinct employees, never more than its rows. |
| `Attendance.AttendanceSeries` | components/callbacks.py:880-898 | With a year chosen, the series is the headcount of that year's rows. Otherwise it is the headcount of the rows dated within the range, so every point lies in the range. |
| `Attendance.CountsEmployeesNotRows` | components/callbacks.py:894-896 | Three rows of one date from two employees count 2, not 3. |
| `Geography.FirstNamed` | components/callbacks.py:952-954 | `.values[0]` takes the first row carrying the chosen name. |
| `Geography.ChildOptions` | components/callbacks.py:950-983 | No options when nothing (or `""`) is chosen, and an error when the chosen name is in no parent row. Otherwise each child name of the first matching parent appears once, and nothing else, in order of first appearance among the children. |
| `Geography.FirstMatchDecides` | components/callbacks.py:952-954 | Rows after the first match do not change the options. |
| `Geography.ChildListed` | components/callbacks.py:955-959 | Every child of the chosen area is offered. |
| `Home.QueryCount` | pages/home.py:47-48 | `query('col in [...]')` counts at most the rows. |
| `Home.QueryCountUnion` | pages/home.py:47-48 | Listing two disjoint sets of spellings counts the rows of each. |
| `Home.QueryCountOne` | pages/home.py:125-129 | A one-spelling query counts what `value_counts()` gives for that spelling. |
| `Home.DisjointQueries` | pages/home.py:47-48 | Male and female (or married and single) counts together never exceed the rows. |
| `Home.Percentage` | pages/home.py:50-54 | `count / total * 100` when the total is positive, exactly 0 otherwise, and between 0 and 100 when count ≤ total. |
| `Home.PercentageAdds` | pages/home.py:50-54 | Percentages of one total add up like their counts. |
| `Home.Formatted` | pages/home.py:42 | The formatted count reads back as the count, with commas every three digits. |
| `Home.PatientIndicators` | pages/home.py:37-78 | Total = rows; gender counts match only `male`/`Male`, `female`/`Female`, are disjoint, sum ≤ total, and their percentages sum ≤ 100; marital counts likewise; formatted counts read back. |
| `Home.OtherSpellingUncounted` | pages/home.py:47-48 | A patient recorded as `"MALE"` changes neither gender count. |
| `Home.DisabledWorkers` | pages/home.py:86-88 | Exactly the workers whose disability status is 1, each as often as in the table. |
| `Home.WorkerIndicators` | pages/home.py:82-93 | Total = rows. The disability count covers exactly status 1, and its percentage is count/total × 100 (0 for no workers), between 0 and 100. |
| `Home.MaritalSeries` | pages/home.py:117-129 | Exactly two bars, `Single` then `Married`, counting the exact spellings (0 when absent). |
| `Home.MaritalCaseMismatch` | pages/home.py:72-75 | A `"single"` patient counts on the card but in neither bar. |
| `Home.PatientVisits` | pages/home.py:18-20 | The visiting-patients table pairs visits and patients with equal ids, and every such pair is present. Each pair occurs (visit count) × (patient count) times. |
| `Home.VisitGenders` | pages/home.py:58-61 | Visit gender counts over the joined table, together at most its rows. |
| `Home.UnmatchedVisitIgnored` | pages/home.py:18-20 | A visit with no matching patient changes neither the joined table nor the visit gender counts. |
| `Home.AgeCharts` | pages/home.py:545-555 | Registered and visiting age series: eight bars each, counts by group, totals at most their tables' rows. |
| `Home.MaritalCharts` | pages/home.py:152-156 | Registered and visiting marital bars, each counting the exact spellings `Single` and `Married`. |

## Left out

- The page layouts, the navigation bar, every plotly figure and trace (styling, hover templates, colour cycling) and the Dash callback wiring. They are presentation and framework dispatch.
- Reading the CSV files at import time. This is I/O, so the tables are parameters.
- `pd.to_datetime` on dates, `isocalendar().week` and `dt.day_name()`. Dates are given as day numbers, and a clock-in row's calendar year is given as its own column.
- The hourly heat-maps of the visitation and attendance pages, with their `errors="coerce"` re-parse and the pivot and reindex fills. These depend on pandas' generic date parser and pivot semantics.
- `.round(2)` and the `"{:.2f}"` display formatting. Percentages are exact reals.
- The empty-result branch of the visitation `update_charts`, which returns five figures for three outputs, and the "No data available" figures of the HR callbacks. Both are presentation. `Visitation.VisitationCharts` only says when the no-data case occurs.
- The gender pie of the visitation page, which passes the filtered rows straight to plotly.
- The home page's hard-coded `total_lgas = 1` and `total_facilities = 24`, and `total_wards = len(wards_df)`. These are constants and a row count.
- The module-level aggregates duplicated in the human-resources and attendance page files. They repeat the callback logic that is modelled here.
- `%H`/`%M`/`%S` fields written with non-ASCII digits. The model reads ASCII digits only.
- A seconds field of 60 or 61 is modelled as a format mismatch.
- pandas' default `sort_values` is not stable. The model sorts stably, and the properties proved do not depend on the order of ties.
- Option names are modelled as text. A missing name among the child rows, which `.unique()` would list as `NaN`, is not modelled.
- `HumanResources.AgeGroupDistribution`: does not prove that the bars add up to the filtered workers with a recorded age group. Each bar's count, category or not, is proved.
- `HumanResources.ByCategory`: does not prove that the bars add up to the recorded cells. Each bar's count, category or not, is proved.
- `HumanResources.TreemapTable`: the `% Distribution` column computed per row before grouping is overwritten after grouping. Only the grouped value is modelled.
