# Anomaly explorer page — a Dafny model

This project models the logic of the `Main` page component of the anomaly
explorer (`anomaly-app/src/app/pages/main/main.ts`). The page lists one entry
per measured feature of a dataset of daily rows. Each row carries a feature
name, a `YYYY-MM-DD` date, a distinct-CID count, a z-score, an anomaly score,
an `is_anomaly` flag held as text, and a severity. On that page a user:

- searches the list of features,
- selects a feature to chart its rows in date order, with anomalous points
  coloured by severity,
- clicks an anomalous point to open a details panel. The panel shows the
  feature's analyzed period and starts a news lookup keyed by the clicked date.

Every listed feature also gets a small sparkline.

The Dafny modules follow those parts:

| module | file | what it models |
|---|---|---|
| `Records` | records.dfy | the dataset row, `filter` by feature, the anomaly count |
| `Text` | text.dfy | `trim`, `toLowerCase`, `includes`, decimal rendering of counts |
| `Catalog` | catalog.dfy | `getUniqueFeatures` and lookup by id |
| `Search` | search.dfy | the search filter, selection repair and the `selectItem` toggle |
| `Series` | series.dfy | the stable date sort, as a function and as an in-place array sort |
| `Period` | period.dfy | `calculateAnalyzedPeriod` and its duration label |
| `Points` | points.dfy | the point colours and radii of the main chart |
| `Sparkline` | sparkline.dfy | the every-third, at-most-ten sparkline values |
| `News` | news.dfy | the `YYYYMMDD` key of the news lookup |
| `MainView` | main.dfy | the component as a class whose methods update its fields |

Dates are modelled twice on each row. `dateOfUse` is the row's own text, which
the panel shows and the news key is made from. `day` is the whole day number
that parsing that text gives. The source compares dates through
`new Date(text).getTime()`. For date-only texts the difference between two of
them is a whole number of days, so `Math.ceil` at main.ts:438 does nothing. The
model therefore takes the day difference directly.

`Array.prototype.sort` with a comparator is stable. The model sorts by stable
insertion (`Series.SortedByDate`), and `Series.SortByDate` does that insertion
sort in place on an array, as the source sorts its filtered arrays in place.
`Series.SortedByDateStable` proves the stability: rows of the same day keep
their input order.

JavaScript truthiness of `selectedItemId` is kept exactly: `0` is falsy, like
`null` (`Search.Truthy`). Catalog ids start at 1, so for them this only
matters when an id of 0 is passed in.

Two facts about the code shape the model:

- The component has no trailing-window or resampling code. It always charts
  all rows of a feature (main.ts:115).
- The anomaly flag stays text and is compared with `"True"` exactly
  (main.ts:83, 152, 183, 268, 441). The model keeps the text and that
  comparison (`Records.IsAnomalous`).

## Model

| member | source | states |
|---|---|---|
| `Records.IsAnomalous` | anomaly-app/src/app/pages/main/main.ts:83 | a row is anomalous only when its flag is exactly the four characters `True`; `true`, `TRUE`, `False`, `1` and the empty flag are not anomalous |
| `Records.FeatureRecords` | anomaly-app/src/app/pages/main/main.ts:115 | the rows kept are exactly the dataset's rows of that feature, no more rows than the dataset has; `FeatureRecordsSnoc` fixes their order and multiplicity |
| `Records.FeatureRecordsAppend` | anomaly-app/src/app/pages/main/main.ts:115 | filtering a concatenation filters each part and keeps the parts in order |
| `Records.FeatureRecordsSnoc` | anomaly-app/src/app/pages/main/main.ts:115 | no rows give no rows; an appended row is appended to the result exactly when it has the feature, so every matching row is kept once per occurrence and in dataset order |
| `Records.CountAnomalies` | anomaly-app/src/app/pages/main/main.ts:441 | the number of anomalous rows never exceeds the number of rows |
| `Records.CountAnomaliesExtremes` | anomaly-app/src/app/pages/main/main.ts:441 | the count is 0 exactly when no row's flag is "True", and equals the row count exactly when every row's flag is "True" |
| `Text.TrimStart` | anomaly-app/src/app/pages/main/main.ts:332 | the result is a suffix of the input; only whitespace was dropped; it does not start with whitespace |
| `Text.TrimEnd` | anomaly-app/src/app/pages/main/main.ts:332 | the result is a prefix of the input; only whitespace was dropped; it does not end with whitespace |
| `Text.IsWhitespace` | anomaly-app/src/app/pages/main/main.ts:332-335 | space, tab and newline are whitespace to `trim`; no ASCII letter or digit is |
| `Text.Trim` | anomaly-app/src/app/pages/main/main.ts:332-335 | the result is a slice `s[i..j]` of the input with every character before `i` and from `j` on whitespace, and it neither starts nor ends with whitespace; `TrimEmptyIffBlank` and `TrimToLower` give its other properties |
| `Text.TrimmedAtCompose` | anomaly-app/src/app/pages/main/main.ts:332-335 | dropping a whitespace prefix and then a whitespace suffix leaves a slice of the input flanked by whitespace on both sides |
| `Text.ToLower` | anomaly-app/src/app/pages/main/main.ts:335-337 | lower-casing keeps the length, leaves no ASCII capital, and changes no character that is not an ASCII capital; `ToLowerCapitals` says what each capital becomes (ASCII only, see Left out) |
| `Text.ToLowerCapitals` | anomaly-app/src/app/pages/main/main.ts:335-337 | every ASCII capital becomes its own small letter, 32 code points further on; with `ToLower`'s contract this fixes the lower-cased text, so the search is case-insensitive over ASCII |
| `Text.TrimToLower` | anomaly-app/src/app/pages/main/main.ts:335 | lower-casing then trimming equals trimming then lower-casing |
| `Text.Contains` | anomaly-app/src/app/pages/main/main.ts:337 | `includes` is true exactly when the term occurs at some index |
| `Text.NatToString` | anomaly-app/src/app/pages/main/main.ts:450-456 | the decimal text of a count is non-empty, all digits, and has no leading zero unless the count is 0 |
| `Text.ParseNatToString` | anomaly-app/src/app/pages/main/main.ts:450-456 | reading the decimal text back gives the number |
| `Text.NumberPrefixUnique` | anomaly-app/src/app/pages/main/main.ts:450-456 | a count's text followed by a non-digit unit splits back into that count and that unit |
| `Catalog.Firsts` | anomaly-app/src/app/pages/main/main.ts:76 | the indices are ascending, each is the first row of its feature, and every first row is listed |
| `Catalog.FirstIndex` | anomaly-app/src/app/pages/main/main.ts:76 | the index is that of a row of the feature and no earlier row has that feature |
| `Catalog.Snapshot` | anomaly-app/src/app/pages/main/main.ts:77-85 | the entry carries the given id and the row's feature name, and its flag is set iff the row's `is_anomaly` is exactly "True" |
| `Catalog.BuildCatalog` | anomaly-app/src/app/pages/main/main.ts:70-94 | the catalog has no more entries than rows and its ids are 1..n in order; `CatalogEntries`, `CatalogOrder` and `CatalogCoversFeatures` give the rest |
| `Catalog.CatalogEntries` | anomaly-app/src/app/pages/main/main.ts:76-85 | entry k has id k+1 and is the snapshot of its feature's first row; its flag is set iff that row's `is_anomaly` is exactly "True" |
| `Catalog.CatalogOrder` | anomaly-app/src/app/pages/main/main.ts:72-89 | entries are in the order their features are first met |
| `Catalog.CatalogNamesDistinct` | anomaly-app/src/app/pages/main/main.ts:76 | no feature has two entries |
| `Catalog.CatalogNames` | anomaly-app/src/app/pages/main/main.ts:72-89 | the entry names are exactly the dataset's features |
| `Catalog.FeatureHasEntry` | anomaly-app/src/app/pages/main/main.ts:74-87 | every feature of the dataset names some entry |
| `Catalog.CatalogCoversFeatures` | anomaly-app/src/app/pages/main/main.ts:72-89 | the catalog has exactly one entry per distinct feature |
| `Catalog.CatalogExtend` | anomaly-app/src/app/pages/main/main.ts:74-87 | a later row of a known feature changes nothing; a row of a new feature appends its snapshot with id size+1 |
| `Catalog.CatalogSnocPrefix` | anomaly-app/src/app/pages/main/main.ts:74-87 | appending a row keeps every existing entry and adds at most one |
| `Catalog.UniqueFeatures` | anomaly-app/src/app/pages/main/main.ts:70-94 | the map-filling loop returns the catalog of the whole dataset |
| `Catalog.FindById` | anomaly-app/src/app/pages/main/main.ts:100 | a found entry is in the list, has the id and is the first entry with it; nothing is found exactly when no entry has the id |
| `Catalog.FindByIdInCatalog` | anomaly-app/src/app/pages/main/main.ts:100 | in a catalog, id i finds the entry at position i-1 when 1 <= i <= n, and nothing otherwise |
| `Search.Matches` | anomaly-app/src/app/pages/main/main.ts:336-338 | the empty term matches every entry; a matching term is no longer than the entry's name |
| `Search.MatchingIsSubsequence` | anomaly-app/src/app/pages/main/main.ts:336-338 | filtering keeps catalog order and only drops entries |
| `Search.MatchingMembers` | anomaly-app/src/app/pages/main/main.ts:336-338 | an entry is kept iff it is in the list and its lower-cased name contains the term |
| `Search.Matching` | anomaly-app/src/app/pages/main/main.ts:336-338 | the filter keeps no more entries than it is given, and only listed entries that match; `MatchingMembers` and `MatchingIsSubsequence` give the converse and the order |
| `Search.SearchResult` | anomaly-app/src/app/pages/main/main.ts:331-339 | the search lists no more entries than the catalog has, all from the catalog; `SearchBlank`, `SearchMembers` and `SearchKeepsOrder` pin it down |
| `Search.SearchBlank` | anomaly-app/src/app/pages/main/main.ts:332-333 | an empty or whitespace-only query lists the full catalog unchanged |
| `Search.SearchKeepsOrder` | anomaly-app/src/app/pages/main/main.ts:331-339 | every search result is an order-preserving subsequence of the catalog |
| `Search.SearchMembers` | anomaly-app/src/app/pages/main/main.ts:335-338 | for a non-blank query the result holds exactly the entries whose lower-cased name contains the lower-cased, trimmed query |
| `Search.FindByIdHasId` | anomaly-app/src/app/pages/main/main.ts:347 | the `find` by id fails exactly when no listed entry has the id |
| `Search.RepairSelection` | anomaly-app/src/app/pages/main/main.ts:347-361 | a missing selection moves to the first listed id or to null; no selection with a non-empty list takes the first id; a listed selection stays; a truthy or non-null result is listed |
| `Search.Truthy` | anomaly-app/src/app/pages/main/main.ts:97-99 | a selection is truthy exactly when it is neither null nor the id 0 |
| `Search.Toggle` | anomaly-app/src/app/pages/main/main.ts:97 | the selection becomes null iff the id was already selected, and is that id otherwise |
| `Search.ToggleTwice` | anomaly-app/src/app/pages/main/main.ts:97 | toggling the same id twice restores the selection iff it was null or that id |
| `Search.CatalogIdsTruthy` | anomaly-app/src/app/pages/main/main.ts:78 | catalog ids are never 0, so selecting one is truthy |
| `Series.InsertPermutes` | anomaly-app/src/app/pages/main/main.ts:120 | inserting a row adds that row and changes no other |
| `Series.InsertSorted` | anomaly-app/src/app/pages/main/main.ts:120 | inserting into day-sorted rows keeps them day-sorted |
| `Series.Insert` | anomaly-app/src/app/pages/main/main.ts:120 | one stable insertion step adds exactly one row; `InsertPermutes` and `InsertSorted` give which and where |
| `Series.SortedByDate` | anomaly-app/src/app/pages/main/main.ts:120 | sorting keeps the number of rows |
| `Series.SortedByDateSorted` | anomaly-app/src/app/pages/main/main.ts:120 | the sorted rows are in ascending day order and are a permutation of the input |
| `Series.DayRows` | anomaly-app/src/app/pages/main/main.ts:120 | the rows of one day, never more than there are rows; `DayRowsMembers` says which rows they are and `DayRowsAppend` fixes their order |
| `Series.DayRowsMembers` | anomaly-app/src/app/pages/main/main.ts:120 | a row is among one day's rows exactly when it is in the input and has that day |
| `Series.DayRowsAppend` | anomaly-app/src/app/pages/main/main.ts:120 | the rows of one day in a concatenation are that day's rows of each part, in order |
| `Series.InsertDayRows` | anomaly-app/src/app/pages/main/main.ts:120 | one insertion step appends the inserted row to its own day's rows and leaves every other day's rows as they were |
| `Series.SortedByDateStable` | anomaly-app/src/app/pages/main/main.ts:120 | the sort is stable: for every day, the rows of that day come out in their input order |
| `Series.FirstMinIndex` | anomaly-app/src/app/pages/main/main.ts:431 | the index of the earliest row, the first such row in input order |
| `Series.LastMaxIndex` | anomaly-app/src/app/pages/main/main.ts:432 | the index of the latest row, the last such row in input order |
| `Series.SortedHead` | anomaly-app/src/app/pages/main/main.ts:428-431 | the stable sort puts first the earliest row met first |
| `Series.SortedLast` | anomaly-app/src/app/pages/main/main.ts:428-432 | the stable sort puts last the latest row met last |
| `Series.SortedByDateCount` | anomaly-app/src/app/pages/main/main.ts:428-441 | sorting keeps the number of anomalous rows |
| `Series.InsertInPlace` | anomaly-app/src/app/pages/main/main.ts:120 | one insertion step in place gives the functional insertion and leaves the rest of the array alone |
| `Series.SortByDate` | anomaly-app/src/app/pages/main/main.ts:120 | the in-place sort leaves the array equal to the stable date order of its old contents |
| `Series.SortedFeatureRecords` | anomaly-app/src/app/pages/main/main.ts:115-120 | the feature's rows, filtered then sorted in place, equal their stable date order |
| `Period.LabelShape` | anomaly-app/src/app/pages/main/main.ts:447-457 | every label but "Same day" is the count's digits followed by the unit, pluralized when the count is above one |
| `Period.DurationLabel` | anomaly-app/src/app/pages/main/main.ts:444-457 | the label is non-empty, starts with a digit iff the gap is at least one day, and is "Same day" iff the gap is 0 days |
| `Period.DurationLabelExact` | anomaly-app/src/app/pages/main/main.ts:444-457 | two gaps get the same label iff they come to the same count of the same unit (0 days, days, 30-day months, 365-day years) |
| `Period.LabelLeadingDigit` | anomaly-app/src/app/pages/main/main.ts:444-457 | a label starts with a digit iff the gap is at least one day |
| `Period.DurationLabelPlural` | anomaly-app/src/app/pages/main/main.ts:450-456 | a label ends in `s` iff its count is above one |
| `Period.DurationLabelDays` | anomaly-app/src/app/pages/main/main.ts:445-450 | 0 days is "Same day", 1 is "1 day", 29 is "29 days" |
| `Period.DurationLabelMonths` | anomaly-app/src/app/pages/main/main.ts:451-453 | 45 days is "1 month", 60 is "2 months" |
| `Period.DurationLabelYears` | anomaly-app/src/app/pages/main/main.ts:454-456 | 400 days is "1 year", 730 is "2 years" |
| `Period.PeriodCounts` | anomaly-app/src/app/pages/main/main.ts:441-464 | total points is the row count, anomaly points the anomalous rows, and anomaly points <= total points |
| `Period.PeriodSummarizes` | anomaly-app/src/app/pages/main/main.ts:418-466 | no period iff the feature has no rows; otherwise it runs from the earliest row (first met of its day) to the latest (last met of its day), with start <= end, the label of their day gap, all rows counted and the anomalous ones among them |
| `Period.PeriodOf` | anomaly-app/src/app/pages/main/main.ts:418-466 | there is a period exactly when the feature has rows; `PeriodSummarizes` and `PeriodCounts` state its contents |
| `Period.PeriodAtExtremes` | anomaly-app/src/app/pages/main/main.ts:428-465 | the period of a non-empty feature is built from its earliest and latest rows and counts over all its rows |
| `Points.SeverityColour` | anomaly-app/src/app/pages/main/main.ts:154-159 | Normal, Low and Medium get their own colours, anything else the default blue, never transparent |
| `Points.StyleOf` | anomaly-app/src/app/pages/main/main.ts:151-188 | a point is visible iff its flag is "True"; visible points have radius 6, hover radius 8 and fill = border = the severity colour; hidden ones are transparent with radii 0 |
| `Points.ChartPoints` | anomaly-app/src/app/pages/main/main.ts:151-188 | one style per row of the series, the i-th visible exactly when row i is anomalous |
| `Points.VisiblePointsAreAnomalies` | anomaly-app/src/app/pages/main/main.ts:182-184 | the chart shows exactly as many points as the series has anomalies |
| `Sparkline.EveryThird` | anomaly-app/src/app/pages/main/main.ts:491 | the stride filter keeps ceil(n/3) rows; `EveryThirdPicks` says which |
| `Sparkline.SparklineValues` | anomaly-app/src/app/pages/main/main.ts:491-493 | at most ten values and no more than the rows; `SparklineShape` gives each value |
| `Sparkline.EveryThirdPicks` | anomaly-app/src/app/pages/main/main.ts:491 | the stride filter keeps ceil(n/3) rows, the i-th being row 3i |
| `Sparkline.SparklineShape` | anomaly-app/src/app/pages/main/main.ts:491-493 | the sparkline has min(10, ceil(n/3)) values and value i is the count of sorted row 3i |
| `Sparkline.SparklineOfThirtyThree` | anomaly-app/src/app/pages/main/main.ts:491-493 | 33 rows give 10 values, from rows 0 to 27 |
| `News.DateKey` | anomaly-app/src/app/pages/main/main.ts:385 | the key has no hyphen and is no longer than the date text |
| `News.DateKeyAppend` | anomaly-app/src/app/pages/main/main.ts:385 | removing hyphens distributes over concatenation |
| `News.DateKeyNoHyphen` | anomaly-app/src/app/pages/main/main.ts:385 | a text without hyphens is its own key |
| `News.DateKeyIdempotent` | anomaly-app/src/app/pages/main/main.ts:385 | the key of a key is itself |
| `News.DateKeySkipHyphen` | anomaly-app/src/app/pages/main/main.ts:385 | a hyphen between two parts is dropped and the parts kept in order |
| `News.IsoDateKey` | anomaly-app/src/app/pages/main/main.ts:384-385 | a `YYYY-MM-DD` text gives the 8 digits `YYYYMMDD` in order |
| `MainView.AllCharts` | anomaly-app/src/app/pages/main/main.ts:478 | one sparkline per listed entry |
| `MainView.AllChartsAt` | anomaly-app/src/app/pages/main/main.ts:478-493 | sparkline k belongs to entry k and is drawn from its feature's sorted rows |
| `MainView.ChartOf` | anomaly-app/src/app/pages/main/main.ts:485-493 | a sparkline carries its entry's id and at most ten values |
| `MainView.MiniChartsOf` | anomaly-app/src/app/pages/main/main.ts:477-531 | no more sparklines than listed entries, each the sparkline of some listed entry; `FilteredListDrawn` gives one per entry in order |
| `MainView.FeatureRecordsNonEmpty` | anomaly-app/src/app/pages/main/main.ts:486 | a feature of the dataset has rows |
| `MainView.MiniChartsCoverList` | anomaly-app/src/app/pages/main/main.ts:489 | when every listed feature has rows, no entry is skipped |
| `MainView.CatalogEntryHasRows` | anomaly-app/src/app/pages/main/main.ts:486-489 | every catalog entry's feature has rows |
| `MainView.FilteredListDrawn` | anomaly-app/src/app/pages/main/main.ts:478-493 | every listed entry of a search result gets its sparkline, in list order |
| `MainView.ChartMatchesPeriod` | anomaly-app/src/app/pages/main/main.ts:182-184 | the main chart shows as many points as the details panel counts anomalies |
| `MainView.Main.constructor` | anomaly-app/src/app/pages/main/main.ts:36-47 | the catalog is built from the dataset, the full catalog is listed and nothing is selected |
| `MainView.Main.NgOnInit` | anomaly-app/src/app/pages/main/main.ts:51-58 | with a non-empty catalog, the first entry is selected and its rows loaded in date order |
| `MainView.Main.IsItemSelected` | anomaly-app/src/app/pages/main/main.ts:109-111 | an entry is highlighted only when the selection is that id; `Main.SelectItem` proves it highlighted after a click iff it was not before |
| `MainView.Main.LoadChartData` | anomaly-app/src/app/pages/main/main.ts:113-120 | the chart data is the feature's rows in stable date order |
| `MainView.Main.ClearChart` | anomaly-app/src/app/pages/main/main.ts:468-474 | the chart data is emptied |
| `MainView.Main.SelectItem` | anomaly-app/src/app/pages/main/main.ts:96-107 | the selection is toggled, so the clicked entry is selected afterwards iff it was not before; a truthy selection loads the entry with that id when one exists, a falsy one clears the chart |
| `MainView.Main.OnSearchChange` | anomaly-app/src/app/pages/main/main.ts:331-362 | the list becomes the search result and the selection is repaired, the chart following it |
| `MainView.Main.RepairSelectionAfterSearch` | anomaly-app/src/app/pages/main/main.ts:346-361 | the selection becomes the repaired one; the chart loads the first listed entry or clears, as the selection moved |
| `MainView.Main.ClearSearch` | anomaly-app/src/app/pages/main/main.ts:364-378 | the box is emptied, the full catalog listed and its first entry selected and loaded |
| `MainView.Main.OnChartClick` | anomaly-app/src/app/pages/main/main.ts:261-271 | only a click on an anomalous, that is visible, point opens the details with the clicked row, its period and its news key |
| `MainView.Main.OnPointClick` | anomaly-app/src/app/pages/main/main.ts:303-322 | the panel shows the clicked row and its feature's period, and the news lookup is started with its date key |
| `MainView.Main.OnCloseAnomalyDetails` | anomaly-app/src/app/pages/main/main.ts:324-329 | the panel is hidden and emptied |
| `MainView.Main.FetchNewsData` | anomaly-app/src/app/pages/main/main.ts:380-385 | loading is flagged and the key is the date with hyphens removed |
| `MainView.Main.CalculateAnalyzedPeriod` | anomaly-app/src/app/pages/main/main.ts:418-466 | the in-place sort and reading of its ends store exactly the feature's period, or null without rows |
| `MainView.Main.MiniChartFor` | anomaly-app/src/app/pages/main/main.ts:485-493 | an entry gets the sparkline of its sorted rows exactly when it has rows |
| `MainView.Main.CreateMiniCharts` | anomaly-app/src/app/pages/main/main.ts:477-531 | the loop draws, in list order, the sparkline of every listed entry that has rows |

## Left out

- Chart.js: building, destroying and configuring the charts, the empty placeholder chart, titles and legends. These are drawing only. The model keeps the data the charts receive: the sorted series, the point styles and the sparkline values.
- `setTimeout`, `document.getElementById` and the canvas contexts. They only defer or locate drawing. A sparkline is modelled as drawn whenever its feature has rows, so a missing canvas is not modelled.
- The HTTP request of the news lookup and its success and error callbacks. They are network I/O that runs later. The model gives the date key the request is made with and sets the loading flag. The `newsData` field and the error placeholder are not modelled.
- `Math.round(z_score * 100) / 100` in the catalog snapshot. It is floating-point rounding, so the snapshot copies the row's z-score as an opaque value.
- Date parsing. Each row carries the day number its date text parses to. `Math.abs` is kept, and `Math.ceil` is the identity on whole days.
- `Text.ToLower`, `Text.LowerChar`: lower-case the ASCII letters only. Full Unicode case mapping is not modelled, so a search term or name with non-ASCII capitals may match differently.
- The `data` module imported by the component. The dataset is a constructor parameter.
- Angular decorators, `@ViewChild`, the form binding of the search box, and `console.log`. The search text is the field `value`, set from outside.
- The anomaly-details component, the root component and the routes. They only forward an event or configure routing.
