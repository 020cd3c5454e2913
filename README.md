# every-step-you-take, modelled in Dafny

every-step-you-take keeps a daily step count. A step-report email holds one
line per day (`10 Aug 2024, 8421`). `parse_email_to_dict` turns the body into a
dictionary from ISO date (`2024-08-10`) to count. `FirestoreService.upload_dict`
writes each entry as a document of the `step_history` collection, under the
field `step_count`. On the reporting side, `read_collection_to_dataframe`
reads every document back as a `(date, step_count)` record and sorts the
records by date. `StepHistoryProcessor` derives the reporting views from that
history:

- the seven days up to yesterday;
- the per-weekday average over the last three months;
- the last-week table, which joins those two;
- the year-to-date average, with its weekly and monthly buckets.

`StepCountPlotter` and `StepSummaryPlotter` put those numbers on charts:
titles formatted by `format_steps`, y-limits, and the x-position of each
weekly bucket.

The project is one Dafny module per source file of that core, plus four
supporting modules for what Python, pandas and `datetime` provide:

| module | file | models |
|---|---|---|
| `Wrappers` | wrappers.dfy | `Option` and `Result` |
| `Text` | text.dfy | decimal digits; Python's `str.split`, `str.strip` and `re.sub` for a literal pattern |
| `Calendar` | calendar.dfy | proleptic Gregorian dates, day numbers (`toordinal`), weekday names, `DateOffset` for days, months and years, `strftime`/`strptime` for `%Y-%m-%d` and `%d %b %Y` |
| `Stats` | stats.dfy | sums, `mean().astype(int)` (truncation toward zero), `groupby(key).mean()` |
| `StepHistory` | step_history.dfy | the history as a sequence of `(date, step_count)` records, and selection by date |
| `StepHistoryProcessor` | step_history_processor.dfy | step_history_processor.py |
| `StepCountPlotter` | step_count_plotter.dfy | step_count_plotter.py |
| `StepSummaryPlotter` | step_summary_plotter.dfy | step_summary_plotter.py |
| `GmailToFirestore` | gmail_to_firestore.dfy | `parse_email_to_dict` of gmail_to_firestore.py |
| `FirestoreService` | firestore_service.dfy | `upload_dict` and `read_collection_to_dataframe` of firestore_service.py |

Every reporting view is a function of the history and of `today`. `today` is
the calendar day of the wall clock when the report is made, passed as a
parameter. A record's date is a day at midnight, so the source's test
`date > now - offset` becomes "the record's day number is greater than the
day number of `today - offset`". The parser's loop is a `method` proved equal
to a fold over the parsed lines. The Firestore service is a `class` whose
field `collection` maps document ids to documents:

- `UploadDict` updates `collection` in place;
- `ReadCollectionToRecords` runs the read loop over the ids in the order the
  client streams them.

In these places the code is easy to misread; the model follows it as
written:

- A report line must split into exactly two fields around `", "`, since the
  code unpacks `line.split(', ')` into two names. The code does not split on
  the first `", "` only.
- A malformed line fails the whole body.
- An empty year window has no average: `int(NaN)` raises, and the model
  returns `None`.
- Weekly buckets are pandas `'W'` periods, that is Monday–Sunday weeks keyed
  by their Monday.
- `parse_email_to_dict` is documented as returning a dataframe, but it
  returns a dictionary from ISO date to count; the model returns that map.

`StepCountPlotter` carries its own copies of two helpers:

- `_create_week_to_yesterday_dates` (step_count_plotter.py:14-28) is the same
  code as the processor's `_create_week_to_yesterday_df`, and both are
  modelled by `StepHistoryProcessor.CreateWeekToYesterday`;
- the `format_steps` nested in the title code (step_count_plotter.py:62-66)
  is the same code as the module-level `format_steps` of
  step_summary_plotter.py, and both are modelled by
  `StepSummaryPlotter.FormatSteps`.

## Model

| member | source | states |
|---|---|---|
| `StepHistoryProcessor.CreateWeekToYesterday` | step_history_processor.py:15-30 | seven rows, row `i` the day `today - 7 + i` counted in day numbers, each tagged with that day's weekday name |
| `StepHistoryProcessor.WeekCoversEveryWeekday` | step_history_processor.py:20-26 | the seven names of the week are pairwise different and every weekday name occurs among them |
| `StepHistoryProcessor.Filter3mToDate` | step_history_processor.py:32-41 | every row is a record of the history dated strictly after `today - 3 months`, tagged with its weekday name; every such record appears, as many times as in the history, and no other record does |
| `StepHistoryProcessor.TagMultiset` | step_history_processor.py:40 | adding the weekday name keeps how many times each record occurs |
| `StepHistoryProcessor.CountsOn` | step_history_processor.py:49 | the counts of the rows of one weekday: nonempty exactly when that weekday occurs, and each value occurs as many times as there are rows of that weekday with that count |
| `StepHistoryProcessor.Create3mAvgByWeekday` | step_history_processor.py:43-51 | a weekday has an entry exactly when some record of the three-month window falls on it; the entry is the truncated mean of that weekday's counts |
| `StepHistoryProcessor.BaselineOfConstant` | step_history_processor.py:43-51 | when every record of the window counts `k`, every weekday present averages `k` |
| `StepHistoryProcessor.BaselineBounds` | step_history_processor.py:43-51 | every weekday average lies between the smallest and the largest count of the window |
| `StepHistoryProcessor.CountsDated` | step_history_processor.py:58 | the counts recorded on one date: empty exactly when no record has that date, and the single count of that record when dates are unique |
| `StepHistoryProcessor.Lookup` | step_history_processor.py:62 | the weekday's average when the baseline has that weekday, missing otherwise |
| `StepHistoryProcessor.JoinDay` | step_history_processor.py:58-62 | one left-merge row per matching record of the day, or a single row with a missing count; every row carries the day, its name and the weekday's average |
| `StepHistoryProcessor.LeftJoinFromDays` | step_history_processor.py:58 | every row of the left merge carries the date, the weekday name and the baseline of one of the week's days |
| `StepHistoryProcessor.LeftJoinCoversDays` | step_history_processor.py:58 | every day of the week appears in the left merge, as the first row built for it |
| `StepHistoryProcessor.LeftJoinOneRowEach` | step_history_processor.py:58 | with unique dates the left merge keeps exactly one row per day, in the week's order |
| `StepHistoryProcessor.CreateLastWeekSummaryByDay` | step_history_processor.py:53-63 | at least seven rows, every row dated on a day of the week window |
| `StepHistoryProcessor.LastWeekSummaryShape` | step_history_processor.py:53-63 | with unique dates: exactly seven rows in date order; a count is present exactly when a record has that date, and is then that record's count; each row carries its weekday's average or a missing value |
| `StepHistoryProcessor.CountedDayHasBaseline` | step_history_processor.py:57-62 | a day of the table with a count also has a three-month average, because the week lies inside the three-month window |
| `StepHistoryProcessor.FilterYearToDate` | step_history_processor.py:65-71 | the records dated strictly after `today - 1 year`, each as often as in the history, and no others |
| `StepHistoryProcessor.GetYearToDateAvgStepCount` | step_history_processor.py:73-78 | missing exactly when no record falls in the year window; otherwise the truncated mean of the window's counts |
| `StepHistoryProcessor.YearToDateAvgOrderIndependent` | step_history_processor.py:73-78 | two histories holding the same records in any order give the same year-to-date average |
| `StepHistoryProcessor.MondayOnOrBefore` | step_history_processor.py:85 | a Monday, at most six days before the given day |
| `StepHistoryProcessor.WeekStart` | step_history_processor.py:85 | the key of a day's week is a Monday, and the day lies in the seven days from it |
| `StepHistoryProcessor.SameWeekIff` | step_history_processor.py:85 | two days share a week key exactly when they fall in the same Monday–Sunday week |
| `StepHistoryProcessor.WeekStartIsWeekdayOffset` | step_history_processor.py:85 | the week of a day starts as many days before it as its weekday number |
| `StepHistoryProcessor.MondayFormula` | step_history_processor.py:85 | the Monday on or before a day, in closed form |
| `StepHistoryProcessor.MonthKey` | step_history_processor.py:93 | the month key determines the year and the month of a date |
| `StepHistoryProcessor.MonthKeyOrder` | step_history_processor.py:93 | month keys are ordered as the calendar months are |
| `StepHistoryProcessor.GroupMeansCoversKeys` | step_history_processor.py:86 | the grouped rows have a row for the key of every input record, and only for those keys |
| `StepHistoryProcessor.WeeklyMeans` | step_history_processor.py:84-86 | weeks strictly ascending; a week appears exactly when a record falls in it; its value is the truncated mean of that week's counts |
| `StepHistoryProcessor.WeeklyMeansOnMondays` | step_history_processor.py:85 | every weekly bucket is keyed by a Monday |
| `StepHistoryProcessor.CreateYearToDateByWeek` | step_history_processor.py:80-89 | the weekly buckets of the year window: ascending Mondays, one per week holding a record, each with the truncated mean of that week |
| `StepHistoryProcessor.MonthlyMeans` | step_history_processor.py:92-94 | months strictly ascending; a month appears exactly when a record falls in it; its value is the truncated mean of that month's counts |
| `StepHistoryProcessor.CreateYearToDateByMonth` | step_history_processor.py:91-97 | the monthly buckets of the year window: ascending months, one per month holding a record, each with the truncated mean of that month |
| `StepCountPlotter.InlineCounts` | step_count_plotter.py:37-41 | the counts of one weekday after the cutoff: nonempty exactly when such a record exists, and each value occurs as many times as there are such records with that count |
| `StepCountPlotter.InlineBaseline` | step_count_plotter.py:37-42 | the plotter's own baseline has an entry exactly for the weekdays after the cutoff, each the truncated mean of that weekday's counts |
| `StepCountPlotter.SelectThenGroup` | step_count_plotter.py:38-41 | selecting, tagging and then picking one weekday gives the same counts as the plotter's one pass |
| `StepCountPlotter.InlineCountsAgree` | step_count_plotter.py:38-41 | the plotter's counts per weekday are the processor's counts per weekday |
| `StepCountPlotter.SameWeekdays` | step_count_plotter.py:37-42 | the plotter's baseline and the processor's baseline have the same weekdays |
| `StepCountPlotter.InlineBaselineAgrees` | step_count_plotter.py:37-42 | the plotter's inline baseline equals the processor's weekday baseline, entry for entry |
| `StepCountPlotter.CreateLastWeekSummaryDf` | step_count_plotter.py:30-45 | the plotter's last-week table is the processor's `create_last_week_summary_by_day` table |
| `StepCountPlotter.LastWeekYLimit` | step_count_plotter.py:77 | `max(max count, 12000)`: at least 12000 and every count, equal to 12000 or to a count; missing when no count is present |
| `StepCountPlotter.TitleWeekAverage` | step_count_plotter.py:69 | with unique dates, the week average of the title is missing exactly when no record falls on the seven days up to yesterday |
| `StepCountPlotter.RecordInWeekIsShown` | step_count_plotter.py:35 | a record dated in the week shows its count on its day's row |
| `StepCountPlotter.ShownCountIsInWeek` | step_count_plotter.py:35 | a row with a count comes from a record dated in the week |
| `StepSummaryPlotter.FormatSteps` | step_summary_plotter.py:11-15 | nonempty; ends in `k` exactly when the magnitude is at least 1000; below that, `str(steps)`: the decimal digits of the number with its sign and no leading zero |
| `StepSummaryPlotter.FormatStepsThousands` | step_summary_plotter.py:12-13 | at 1000 and above, the thousands with one decimal: the count rounded to the nearest hundred, then the point, the tenths digit and `k` |
| `StepSummaryPlotter.FormatStepsExamples` | step_summary_plotter.py:11-15 | 950 gives `950`, 1000 gives `1.0k`, 8421 gives `8.4k`, -2500 gives `-2.5k` |
| `StepSummaryPlotter.Present` | step_summary_plotter.py:45-46 | the present values of a column with missing entries, in order: empty exactly when every entry is missing, each value exactly when some entry holds it, and as many times as entries hold it |
| `StepSummaryPlotter.PresentCounts` | step_summary_plotter.py:45 | the counts present in the table: empty exactly when every count is missing, and each value as many times as the `step_count` column holds it |
| `StepSummaryPlotter.PresentBaselines` | step_summary_plotter.py:46 | the three-month averages present in the table: empty exactly when all are missing, and each value as many times as the `3m_avg` column holds it |
| `StepSummaryPlotter.AvgStepsLastWeek` | step_summary_plotter.py:45 | missing exactly when every count is missing; otherwise the truncated mean of the counts present |
| `StepSummaryPlotter.AvgSteps3m` | step_summary_plotter.py:46 | missing exactly when every average is missing; otherwise the truncated mean of the averages present |
| `StepSummaryPlotter.AvgStepsLastWeekBounds` | step_summary_plotter.py:45 | the week average lies between the smallest and the largest count |
| `StepSummaryPlotter.AvgSteps3mBounds` | step_summary_plotter.py:46 | the three-month figure lies between the smallest and the largest weekday average |
| `StepSummaryPlotter.WeekYLimit` | step_summary_plotter.py:61 | `max(max count + 1000, 12000)`: at least 12000, at least 1000 above every count, equal to 12000 or to the largest count plus 1000 |
| `StepSummaryPlotter.YearYLimit` | step_summary_plotter.py:77 | `max(max bucket + 1000, 12000)`: at least 12000, at least 1000 above every bucket, equal to 12000 or to a bucket plus 1000; missing without buckets |
| `StepSummaryPlotter.WeekBucketsAtMondays` | step_summary_plotter.py:72 | every weekly bucket is drawn at a Monday, and some record falls in the seven days from it |
| `GmailToFirestore.ParseCount` | gmail_to_firestore.py:23 | a count parses exactly when it is all digits, to the value of those digits, which prints back as the same text unless the text has a leading zero |
| `GmailToFirestore.CanonicalDigits` | gmail_to_firestore.py:23 | digits without a leading zero are the canonical decimal form of their value |
| `GmailToFirestore.ParseLine` | gmail_to_firestore.py:19-25 | fails as not two fields exactly when the line does not split into two around `", "`; a key it returns is a date string that reads back as an ISO date |
| `GmailToFirestore.ParseLineOutcome` | gmail_to_firestore.py:19-25 | for a line of two fields: fails with the date's own error exactly when the date field does not parse; then as a bad count exactly when the count field is not all digits; otherwise succeeds, with the parsed date written `YYYY-MM-DD` as key and the value of the digits as count |
| `GmailToFirestore.ReportLineRoundTrip` | gmail_to_firestore.py:19-25 | the line `D Mon YYYY, N` written for a day and a count parses to that day's ISO id and that count |
| `GmailToFirestore.ParseEach` | gmail_to_firestore.py:18-19 | each line parsed on its own, in order |
| `GmailToFirestore.Store` | gmail_to_firestore.py:17-25 | the dictionary only grows as readings are stored |
| `GmailToFirestore.StoreOk` | gmail_to_firestore.py:18-25 | the fold succeeds exactly when every line parses, and otherwise fails with the error of the first bad line |
| `GmailToFirestore.StoreEntries` | gmail_to_firestore.py:25 | the result holds exactly the keys read, each mapped to the count of the last line with that key |
| `GmailToFirestore.ParseEmailToDict` | gmail_to_firestore.py:7-27 | the loop returns the fold of the parsed lines of the body |
| `GmailToFirestore.BlankBodyFails` | gmail_to_firestore.py:14-19 | an empty or all-white-space body fails on its single empty line |
| `GmailToFirestore.OneLineRoundTrip` | gmail_to_firestore.py:7-27 | the body of a one-line report gives the dictionary holding just that day's ISO id and count |
| `GmailToFirestore.OneLineBody` | gmail_to_firestore.py:14 | the body of a one-line report is that single line |
| `GmailToFirestore.SampleLine` | gmail_to_firestore.py:20-21 | `10 Aug 2024, 8421` gives `{"2024-08-10": 8421}` |
| `FirestoreService.Upload` | firestore_service.py:18-25 | the documents of the dictionary's keys become `{field: value}`; other documents are unchanged; none is removed |
| `FirestoreService.UploadIdempotent` | firestore_service.py:23-25 | uploading the same dictionary twice leaves the collection as one upload does |
| `FirestoreService.UploadsCommute` | firestore_service.py:23-25 | uploads of dictionaries with disjoint keys can be made in either order |
| `FirestoreService.FirestoreService.constructor` | firestore_service.py:11-16 | the service starts on the given collection |
| `FirestoreService.FirestoreService.UploadDict` | firestore_service.py:18-25 | the collection after the loop is the upload of the dictionary into the old collection |
| `FirestoreService.RecordOf` | firestore_service.py:40-46 | a document fails exactly when its id is not a date; otherwise its record has that date and the `step_count` field, or 0 when the field is absent |
| `FirestoreService.ToRecord` | firestore_service.py:37-46 | the same, with the id parsed as `%Y-%m-%d`; a read date is within years 1 to 9999 |
| `FirestoreService.Collect` | firestore_service.py:37-46 | on success, one record per document in stream order, each the record of its document; a failure is a bad document id |
| `FirestoreService.CollectAllOk` | firestore_service.py:37-46 | when every document reads as a record, the pass yields exactly those records |
| `FirestoreService.CollectFirstBad` | firestore_service.py:42 | the pass fails with the first id that is not a date |
| `FirestoreService.SortedDayNumbers` | firestore_service.py:53 | in records sorted by date the day numbers never decrease |
| `FirestoreService.Insert` | firestore_service.py:53 | inserting into sorted records keeps them sorted, adding exactly the new record |
| `FirestoreService.SortByDate` | firestore_service.py:53 | the records sorted by ascending date, a permutation of the input |
| `FirestoreService.ReadCollection` | firestore_service.py:27-55 | on success, sorted by date, one record per document, every document's record present, and a permutation of the records read in stream order |
| `FirestoreService.ReadCollectionOutcome` | firestore_service.py:37-53 | the read succeeds exactly when there is a document and every id is a date; it fails as empty exactly when there is no document; otherwise it fails with the first bad id |
| `FirestoreService.UploadThenRead` | firestore_service.py:18-46 | after an upload under `step_count`, a successful read holds the record of every uploaded date-named key with its count |
| `FirestoreService.FirestoreService.ReadCollectionToRecords` | firestore_service.py:27-55 | the loop over the streamed documents returns the value read of the collection |
| `Calendar.SubDays` | step_history_processor.py:20-21 | `today - DateOffset(days=n)`: a real day whose day number is `n` less |
| `Calendar.SubMonths` | step_history_processor.py:37 | `DateOffset(months=n)`: `n` months back, the day clamped to the length of that month |
| `Calendar.SubMonthsDistance` | step_history_processor.py:37 | `n` months back is at least `28 n` days back |
| `Calendar.SubYears` | step_history_processor.py:69 | `DateOffset(years=n)`: the same month and day `n` years back, with 29 February becoming 28 February in a common year |
| `Calendar.OrdinalInjective` | step_history_processor.py:58 | two real days with the same day number are the same day |
| `Calendar.NotLaterOrdinal` | firestore_service.py:53 | comparing dates by year, month and day agrees with comparing their day numbers |
| `Calendar.DayName` | step_history_processor.py:40 | `dt.day_name()`: the English name of the day's weekday number, Monday for 0 |
| `Calendar.WeekdayAnchors` | step_history_processor.py:40 | 1 January of year 1 and 1 January 2024 are Mondays, 10 August 2024 a Saturday |
| `Calendar.WeekdaySuccessor` | step_history_processor.py:40 | the next day has the next weekday, Sunday followed by Monday |
| `Calendar.WeekdayPeriod` | step_history_processor.py:40 | days seven days apart have the same weekday name |
| `Calendar.WeekdayNamesDistinct` | step_history_processor.py:26 | the seven weekday names are pairwise different |
| `Calendar.ParseIsoDate` | firestore_service.py:42 | `strptime(id, '%Y-%m-%d')`: malformed exactly when the `-`-separated fields are not four year digits, a month 1..12 and a day 1..31; out of range exactly when the fitting fields name no real day of years 1 to 9999; otherwise the date the fields spell |
| `Calendar.IsoRoundTrip` | firestore_service.py:42 | an id written as `%Y-%m-%d` parses back to the same day |
| `Calendar.ParseDayMonthYear` | gmail_to_firestore.py:21 | `strptime(s, '%d %b %Y')`: malformed exactly when the space-separated fields are not a day 1..31, a month abbreviation and four year digits; out of range exactly when they name no real day of years 1 to 9999; otherwise the date they spell |
| `Calendar.DayMonthYearRoundTrip` | gmail_to_firestore.py:21 | a date written as `%d %b %Y` parses back to the same day |
| `Calendar.MonthNameRoundTrip` | gmail_to_firestore.py:21 | every month abbreviation reads back as its month |
| `Calendar.CheckDate` | gmail_to_firestore.py:21 | a date is accepted exactly when its year is 1 to 9999 and its day exists in its month |
| `Text.Split` | gmail_to_firestore.py:14 | `str.split(sep)`: at least one part, the parts joined by the separator give the input, and no part holds the separator |
| `Text.SplitConcat` | gmail_to_firestore.py:19 | a first field without the separator's first character is split off as the first part |
| `Text.Replace` | gmail_to_firestore.py:14 | `re.sub` with a literal pattern: the input's parts around the pattern, joined by the replacement |
| `Text.ReplaceConcat` | gmail_to_firestore.py:14 | replacing walks over a pattern-free prefix, replaces the pattern, and continues on the rest |
| `Text.Strip` | gmail_to_firestore.py:14 | `str.strip()`: the slice of the input after its leading white space, with only white space after it; empty exactly when the input is all white space; otherwise starts and ends with a non-space; unchanged when already trimmed |
| `Text.NatToStringRoundTrip` | gmail_to_firestore.py:23 | the decimal digits of a number read back as that number |
| `Text.IntToString` | step_summary_plotter.py:15 | `str(n)`: the digits of `n` with no leading zero, after a minus sign when `n` is negative |
| `Text.Pad4` | gmail_to_firestore.py:21 | `%Y` for a year below 10000: four digits that read back as the year |
| `Stats.TruncDiv` | step_history_processor.py:77 | division truncated toward zero |
| `Stats.MeanPermutation` | step_history_processor.py:77 | the truncated mean does not depend on the order of the values |
| `Stats.MeanOfConstant` | step_history_processor.py:49 | the mean of values all equal to `k` is `k` |
| `Stats.MeanBounds` | step_history_processor.py:49 | the truncated mean lies between a lower and an upper bound of the values |
| `Stats.SumPermutation` | step_history_processor.py:77 | the sum does not depend on the order of the values |
| `Stats.ValuesAt` | step_history_processor.py:49 | the values of one key: each value as many times as the input holds that key with that value |
| `Stats.GroupMeans` | step_history_processor.py:49 | `groupby(key).mean().astype(int)`: keys strictly ascending, one row per key present and none for an absent key, each the truncated mean of that key's values |
| `StepHistory.After` | step_history_processor.py:39 | the records dated strictly after the cutoff, each as often as in the history, and no others |
| `StepHistory.AfterPermutation` | step_history_processor.py:70 | selecting by date from two histories with the same records gives the same records |
| `StepHistory.CountsPermutation` | step_history_processor.py:77 | the counts of two histories with the same records are the same values |

## Left out

- I/O is not modelled. This covers the Gmail reader, the Firestore client and
  its credentials, logging, and matplotlib drawing, colours and saving the
  figure. The collection is a map held by the service object.
- The wall clock is not modelled: `today` is a parameter. Every
  `pd.Timestamp.now()` of one call is taken to fall on the same calendar day.
  The time of day is not modelled, because records are dated at midnight.
- The order in which the Firestore client streams documents is not modelled.
  The read takes it as the parameter `ids`.
- `StepSummaryPlotter.FormatSteps`: at a tie (`abs(steps) % 100 == 50`) the
  model rounds away from zero. Python's `:.1f` rounds the binary
  floating-point value, which can go either way. The lemmas about the label
  hold only off ties.
- `Calendar.ParseIsoDate` and `Calendar.ParseDayMonthYear` accept a strict
  form. Fields are ASCII digits with one or two digits for the day and month
  and four for the year, month names are English and case-sensitive, and
  separators are single. `strptime`'s other leniencies are not modelled:
  white space in the pattern and case-insensitive month names.
- `GmailToFirestore.ParseCount` accepts decimal digits only. Python's `int()`
  also takes a sign, surrounding white space, underscores and non-ASCII digits.
- The `%Y` of years below 1000 is not modelled: CPython's platform
  `strftime` may not zero-pad them. Dates are limited to years 1 to 9999,
  Python's own range.
- `StepHistoryProcessor.Create3mAvgByWeekday` is a map from weekday name to
  average. The alphabetical row order of `groupby` is not modelled, because
  the only consumer joins on the name.
- `FirestoreService.SortByDate` is a stable insertion sort. `sort_values`
  uses an unstable quicksort, so the order among records of the same date may
  differ. The contract states only sortedness and the permutation, which both
  sorts share.
- `FirestoreService.RecordOf` stores documents as maps from field to integer.
  `int(doc_dict.get(...))` of a non-integer field value (a float or a string)
  is not modelled.
- `FirestoreService.ReadCollection`: for an empty collection, pandas raises a
  `KeyError` on the missing `date` column. The model returns
  `Err(EmptyCollection)`.
- `StepSummaryPlotter.WeekBucketsAtMondays` is stated for the weekly buckets
  of any selection of records. The year chart's buckets are
  `CreateYearToDateByWeek`, which are those of the year-window selection.
- `save_unread_step_emails_to_firestore` is not part of this model. It only
  chains the Gmail reader, the parser and `upload_dict`.
