# Defect analytics backend, modelled in Dafny

This project models the two data endpoints of the defect-analytics backend
(`backend/server.py`):

- `GET /defects`: the defect listing. Up to four optional query parameters
  (severity, status, component, release) each narrow the list of defect
  records, and the answer is the remaining records with their count.
- `GET /defects/analytics`: the dashboard payload computed from the records:
  - the headline figures (total, open, critical, recurrence rate, average
    resolution time as the mean of each resolved record's whole days, a
    fraction, missing-required-fields percentage);
  - the top-ten recurrence ranking by title;
  - the monthly severity trends;
  - the component × severity heatmap (ten largest components);
  - the release calendar (total/open/closed per release);
  - the data-quality counts.

A defect record is the datatype `Defects.Defect`. The endpoint's list
comprehensions are functions over `seq<Defect>`. Its dictionary-building
loops are methods with `while` loops. Each loop method is proved to fill
exactly the dictionary a specification function describes: its keys in
first-insertion order (`Collections.Keys`) and, per key, the records with
that key (`Collections.Group`). Python's stable `sorted` is
`Sorting.SortBy`; sorting and then cutting to ten is `Sorting.TopBy`. The
model keeps the code's own quirks:

- The severity normalisation `lower().replace('med', 'medium')` turns
  "med" into "medium" but also turns "medium" into "mediumium", so a record
  whose severity is spelled out as "medium" is counted in no severity
  column (`Defects.SpelledOutMediumIsDropped`).
- Only "critical", "high" and "low", in any letter case, and the short
  form "med" reach a column.
- The missing-fields percentage divides by twice the number of records with
  no guard. With no records the endpoint raises instead of answering, which
  the model returns as `Failure(DivisionByZero)`.
- The heatmap groups by the component as recorded, a missing component
  being a key of its own. The release calendar skips records whose release
  is missing, empty, "TBD" or "unknown", compared exactly (so "Unknown" is
  kept).

Modules, in dependency order: `Wrappers`, `Text`, `Collections`, `Sorting`,
`Defects`, `DefectFilters`, `Kpis`, `Recurrence`, `SeverityTable`, `Trends`,
`Heatmap`, `Releases`, `Analytics`.

## Model

| member | source | states |
|---|---|---|
| DefectFilters.GetDefects | backend/server.py:159-169 | The reported total is the length of the listed records, and no more records are listed than were given. |
| DefectFilters.StageIsFilter | backend/server.py:160-167 | One `if param:` stage keeps exactly the records passing its test when the parameter is present and non-empty, and every record otherwise. |
| DefectFilters.AfterSeverityIsFilter | backend/server.py:160-161 | The severity stage keeps, in order, the records whose severity equals the parameter ignoring case (all records when the parameter is absent or empty). |
| DefectFilters.AfterStatusIsFilter | backend/server.py:160-163 | After the status stage, the records kept are those passing both the severity and the status test, in their original order. |
| DefectFilters.AfterComponentIsFilter | backend/server.py:160-165 | After the component stage, the kept records also have a non-empty component containing the parameter, ignoring case. |
| DefectFilters.GetDefectsSelectsMatches | backend/server.py:159-169 | The chained stages list, in input order, exactly the records that pass every test whose parameter is given: the four stages amount to one filter by the whole query. |
| DefectFilters.GetDefectsMembership | backend/server.py:159-169 | A record is listed if and only if it is one of the input records and matches the query. |
| DefectFilters.GetDefectsNoFilters | backend/server.py:159-169 | With no parameter given, every record is listed, in order, with the full count. |
| DefectFilters.GetDefectsIdempotent | backend/server.py:159-169 | Applying the same query to the listing again changes nothing. |
| Kpis.RecurrenceRate | backend/server.py:185-186 | The rate lies in [0, 100], is 0 when there are no records, and otherwise is the recurring records' share of all records, times 100. |
| Kpis.ResolvedDefects | backend/server.py:189 | A record is among the resolved ones if and only if it is an input record with a resolution instant. |
| Kpis.TotalResolutionTime | backend/server.py:190-194 | The running-total loop returns the sum of the whole days each resolved record took. |
| Defects.ResolutionDays | backend/server.py:194 | The whole days of a resolved record are the elapsed time rounded down to days, as `timedelta.days` is: days × a day ≤ elapsed < (days + 1) × a day. |
| Kpis.ResolutionTotalBounds | backend/server.py:190-194 | Rounding per record loses less than one day per resolved record: the day total times a day is at most the total elapsed time, which is below (day total + number of records) days. |
| Kpis.AvgResolutionTime | backend/server.py:195 | The average is 0 when nothing is resolved; otherwise it times the number of resolved records is the day total. |
| Kpis.AvgResolutionTimeBounds | backend/server.py:189-195 | When every resolved record took between lo and hi days, the average lies in [lo, hi]. |
| Kpis.MissingRequiredFieldsPct | backend/server.py:198-201 | The percentage fails with a division by zero exactly when there are no records; otherwise it lies in [0, 100] and times twice the number of records it equals (missing components + missing owners) × 100. |
| Kpis.NothingMissingIff | backend/server.py:198-201 | For a non-empty list, the percentage is 0 if and only if every record has a non-empty component and an owner other than empty or "unassigned". |
| Kpis.DataQualityOf | backend/server.py:198-200 | The data-quality block reports the number of records, and each missing-field count is at most that number. |
| Recurrence.TallyRecurrence | backend/server.py:204-211 | The loop fills the title dictionary: its keys are the distinct titles in first-appearance order, and each value is the sum of the recurrence counts (default 1) of that title's records. |
| Recurrence.AddRecurrence | backend/server.py:206-211 | One loop pass keeps the dictionary equal to the tally of the records read so far, creating the entry for a new title. |
| Recurrence.RecurrenceAnalysisEntries | backend/server.py:213-216 | Every reported entry names a title of the records and carries that title's added-up recurrence. |
| Recurrence.RecurrenceAnalysisLength | backend/server.py:213-216 | The ranking has ten entries, or one per distinct title when there are fewer. |
| Recurrence.RecurrenceAnalysisDistinct | backend/server.py:213-216 | No title is reported twice. |
| Recurrence.RecurrenceAnalysisRanked | backend/server.py:215 | Reported totals never increase down the list. |
| Recurrence.RecurrenceAnalysisIsTop | backend/server.py:215 | Any title left out has a total no larger than every reported total. |
| Recurrence.RecurrenceAnalysisStable | backend/server.py:215 | Titles whose totals tie are reported in the order they first appear in the records. |
| Recurrence.TitleTotalWithoutCounts | backend/server.py:207 | When no record carries a recurrence count, each title's total is its number of records. |
| Defects.NormalizedMedium | backend/server.py:223 | The normalised severity is "medium" if and only if the lower-cased severity is "med". |
| Defects.NormalizedPlain | backend/server.py:223 | For "critical", "high" and "low", the normalised severity is that key if and only if the lower-cased severity already is. |
| Defects.SpelledOutMediumIsDropped | backend/server.py:223-229 | A severity spelled "medium" in any case normalises to "mediumium", which is none of the four keys, so it is counted in no column. |
| Defects.SeverityTally | backend/server.py:225-229 | A severity row counts each record whose normalised severity is one of the four keys exactly once, so its total is at most the number of records. |
| Defects.SeverityTallyColumns | backend/server.py:223-229 | The four columns of a row count the records whose lower-cased severity is "critical", "high", "med" and "low" respectively. |
| SeverityTable.TallySeverities | backend/server.py:219-251 | The loop fills the dictionary keyed by `key`: keys in first-appearance order, each row the severity tally of that key's records. |
| SeverityTable.AddRecord | backend/server.py:219-251 | One loop pass creates the zero row for a new key and bumps the column of the record's normalised severity, keeping the dictionary equal to the tally so far. |
| SeverityTable.ItemsOfTallied | backend/server.py:219-251 | The items of the dictionary the loop fills are one row per key, in insertion order, with that key's tally. |
| SeverityTable.RowsTotal | backend/server.py:237-246 | Across all rows, every record with a recognised severity is counted exactly once. |
| SeverityTable.RowsExact | backend/server.py:237-246 | There is one row per distinct key, each with its records' tally, and every record's key has a row. |
| Trends.TimelineAscending | backend/server.py:231-234 | Months strictly increase down the timeline. |
| Trends.TimelineMonths | backend/server.py:219-234 | A month has a row if and only if some record was created in it, and that row is the tally of the month's records; no empty month is added. |
| Trends.TimelineColumns | backend/server.py:219-234 | A month's row counts, per column, that month's records spelled "critical", "high", "med" and "low". |
| Trends.TimelineTotal | backend/server.py:219-234 | The rows of the timeline together count every record with a recognised severity exactly once. |
| Heatmap.HeatmapLength | backend/server.py:248-251 | The heatmap has ten rows, or one per component value when there are fewer. |
| Heatmap.HeatmapRows | backend/server.py:237-251 | Each reported row is keyed by a component value of the records, missing component included, and holds that component's tally. |
| Heatmap.HeatmapDistinct | backend/server.py:248-251 | No component value is reported twice. |
| Heatmap.HeatmapRanked | backend/server.py:250 | Row totals never increase down the heatmap. |
| Heatmap.HeatmapIsTop | backend/server.py:250 | A component left out has no more counted records than any reported component. |
| Heatmap.HeatmapStable | backend/server.py:250 | Components whose totals tie are reported in the order they first appear in the records. |
| Heatmap.HeatmapTotalBound | backend/server.py:237-251 | The reported rows together count at most the records with a recognised severity. |
| Releases.ReleaseCountsOf | backend/server.py:260-264 | A release's counts have total = number of its records = open + closed, with open the number of records whose status is open, "in progress" or "in-progress" in any case. |
| Releases.TallyReleases | backend/server.py:254-264 | The loop fills the release dictionary from the records with a usable release: keys in first-appearance order, each entry that release's counts. |
| Releases.AddRelease | backend/server.py:256-264 | One loop pass changes nothing for a record whose release is missing, empty, "TBD" or "unknown"; otherwise it creates the entry if missing and counts the record once in the total and once as open or closed. |
| Releases.ReleaseItemsOfTallied | backend/server.py:266-269 | The items of the dictionary the loop fills are one row per usable release, in insertion order, with that release's counts. |
| Releases.CalendarAscending | backend/server.py:266-269 | Releases strictly increase down the calendar. |
| Releases.CalendarReleases | backend/server.py:254-269 | A release has an entry if and only if it is not one of the excluded values and some record names it. |
| Releases.CalendarCounts | backend/server.py:254-269 | Each entry's total is the number of records naming that release, equal to open + closed, with open the number of those that are open. |
| Releases.CalendarTotals | backend/server.py:254-269 | Every record with a usable release is counted exactly once across the calendar's totals, and every open one once across its open counts. |
| Sorting.SortByPermutes | backend/server.py:233 | The stable sort returns a permutation of its input. |
| Sorting.SortBySorted | backend/server.py:233 | The stable sort returns its input ordered by the sort key. |
| Sorting.SortByStable | backend/server.py:215 | The stable sort keeps elements with equal sort keys in their input order, as Python's `sorted` does. |
| Sorting.TopByDominates | backend/server.py:250 | Sorting descending and keeping the first n leaves out only elements ranked no higher than every kept one. |
| Analytics.AnalyticsOf | backend/server.py:172-290 | The payload fails exactly when there are no records. Otherwise: the totals equal the number of records; the open and critical counts are at most that; both rates lie in [0, 100]; there are at most ten recurrence and ten heatmap rows. |
| Analytics.GetDefectAnalytics | backend/server.py:172-290 | The endpoint, computed with its loops section by section, answers exactly the specified payload, or the division-by-zero failure. |
| Analytics.AverageResolution | backend/server.py:189-195 | The loop-computed average resolution equals the specified average. |
| Analytics.RecurrenceSection | backend/server.py:204-216 | The loop-filled and ranked title dictionary gives the specified recurrence ranking. |
| Analytics.TrendSection | backend/server.py:219-234 | The loop-filled and sorted month dictionary gives the specified timeline. |
| Analytics.HeatmapSection | backend/server.py:237-251 | The loop-filled, ranked and cut component dictionary gives the specified heatmap. |
| Analytics.CalendarSection | backend/server.py:254-269 | The loop-filled and sorted release dictionary gives the specified calendar. |
| Analytics.AnalyticsSeverityTotals | backend/server.py:219-251 | In the payload, the trend rows count every record with a recognised severity once; the heatmap rows count at most that many. |

## Left out

- Record generation (`generate_messy_defects`) is not part of this model: it draws random values and reads the clock. Both endpoints take the records as a parameter instead.
- The web framework, routing, CORS, the health and status routes, the MongoDB client and logging are not modelled; they are I/O.
- ISO-8601 parsing and `strftime('%Y-%m')` are not modelled. A record carries its creation and resolution instants as whole microseconds and its month key as a given string.
- Analytics.AnalyticsOf: reports the rates unrounded, as exact `real` values. The endpoint applies `round(..., 2)` and `round(..., 1)` to IEEE doubles; neither the rounding nor floating point is modelled.
- `lower()` is modelled for ASCII letters only; Unicode case mapping is not.
- Key-absent defaults (`d.get('title', 'Unknown')`, `d.get('component', 'Unknown')`, `d.get('release', 'Unknown')`, `d.get('severity', '')`, `d.get('status', '')`) are not modelled: every record has these keys, and an absent optional value is `None`. The one absent key that is modelled is `recurrence_count`, which reads as 1.
- A resolution instant that is an empty string is modelled as absent (`None`), as `if d.get('resolved_at')` treats both alike.
- The JSON field names ("type", "count", "month", "component", "release") and the flattening `{"month": k, **v}` are represented by datatype fields, not by dictionaries.
