# Space missions analysis: a verified model of the data-wrangling cells

The notebook `Space_Missions_Analysis.py` loads `mission_launches.csv`, one
row per space launch since 1957. It derives the columns `Country`, `Year`
and `Month`, cleans the `Price` column, and tabulates the launches. The
tables are per organisation, per country, per year, for the USA/USSR Cold
War, and for failures. This project models the data-wrangling layer
beneath the charts in Dafny and proves what each cell computes.

Modules, in dependency order:

- `Wrappers` (`wrappers.dfy`): `Option` and `Result`.
- `Text` (`text.dfy`): `str.split(',')`, `[-1]` and `str.strip()`, with
  Python's `str.isspace` whitespace set.
- `Numerals` (`numerals.dfy`): decimal digit strings and their values, and
  zero-padded printing.
- `Dates` (`dates.dfy`): `extract_year` and its month twin. This is
  `strptime` with `"%a %b %d, %Y %H:%M %Z"`, falling back to
  `"%a %b %d, %Y"`, followed by `datetime`'s check that the day exists.
- `Prices` (`prices.dfy`): `.str.replace(',', '')` followed by
  `.astype(float)` on one price.
- `Series` (`series.dfy`): the column operations:
  - boolean-mask selection (`Filter`);
  - `unique()`;
  - a column of a frame (`Project`);
  - a stable `sort_values` (`SortBy`);
  - `apply`/`astype`, which convert every cell or raise (`MapAll`).
- `Counts` (`counts.dfy`): `value_counts()` (`ValueCounts`) and
  `groupby(...).size()` (`GroupSizes`).
- `Records` (`records.dfy`): a row (`Mission`), a row with its derived
  columns (`Launch`), the country of a location, and price cleaning over
  the rows.
- `Frame` (`frame.dfy`): the frame `df` as a class. Its `Country`, `Year`
  and `Month` columns are added in place and `Country` is rewritten in
  place. A second class models the priced copy, whose `Price` column is
  rewritten in place.
- `ColdWar` (`coldwar.dfy`): the superpower subset, its sort-and-cut at
  1991, the launches per superpower, and the failures and failure
  percentage per year.
- `Rankings` (`rankings.dfy`): the ten organisations with the most
  launches and the loop that gathers their rows, and the loop that finds
  each year's leading country.

Where the code and a plain reading of the notebook's intent differ, the
model follows the code:

- **The merge is global.** The Kazakhstan/Russia merge (line 518)
  rewrites `df` itself, not only the Cold War view. Every later cell
  therefore sees the merged countries, and so does the leading-country
  loop.
- **Date failures are all-or-nothing.** `df['Date'].apply(extract_year)`
  raises on the first date that neither format accepts, and then no
  `Year` column is created. Rows with bad dates are not skipped. The
  model returns the error, and the frame keeps its old column.

The model departs from the code in these places:

- **Two typos follow the evident intent.** The top-10 loop (line 476)
  concatenates onto the undefined name `top_10`. The model uses
  `top_10_org`, the accumulator the cell initialises. The failure
  percentage cell (lines 594-595) groups by the missing column `year`.
  The model groups by `Year`.
- **NaN is a missing value.** `failures / total_missions` aligns on the
  year and gives NaN for a year without failures. The model gives `None`
  for that year.

## Model

| member | source | states |
|---|---|---|
| Text.StripIsTrimmedSlice | Space_Missions_Analysis.py:232 | `strip()` returns the slice of its input that lies between a whitespace-only prefix and a whitespace-only suffix |
| Text.StripEnds | Space_Missions_Analysis.py:232 | the stripped text is empty, or it neither starts nor ends with whitespace |
| Text.StripIdempotent | Space_Missions_Analysis.py:232 | stripping twice gives the same text as stripping once |
| Text.Split | Space_Missions_Analysis.py:232 | `split(sep)` gives at least one piece, no piece contains the separator, and joining the pieces with the separator gives back the text |
| Text.LastPieceIsTail | Space_Missions_Analysis.py:232 | `split(sep)[-1]` is the whole text when there is no separator; otherwise it is the text after some separator; it never contains the separator |
| Records.CountryOfLocation | Space_Missions_Analysis.py:232 | the derived country contains no comma and is already stripped; a location without a comma gives the whole location stripped; otherwise the country is the stripped text after a comma with no comma after it |
| Frame.MissionFrame.constructor | Space_Missions_Analysis.py:98-99 | the frame holds the given rows and no derived column yet |
| Frame.MissionFrame.AddCountryColumn | Space_Missions_Analysis.py:232 | the new `Country` column holds each row's derived country; the other columns are unchanged |
| Dates.ParseDate | Space_Missions_Analysis.py:287-292 | parsing fails exactly when both formats reject the text, and the error names the text; the primary format's date wins when it matches; a parsed date is a real calendar day in years 1..9999 and is the date the text's leading `%a %b %d, %Y` fields denote |
| Dates.ExtractYear | Space_Missions_Analysis.py:287-292 | succeeds exactly when the date parses, and then gives a year in 1..9999 |
| Dates.ExtractMonth | Space_Missions_Analysis.py:322-329 | succeeds exactly when the date parses, and then gives a month in 1..12 |
| Dates.DateRoundTrip | Space_Missions_Analysis.py:287-292 | a timestamp in the data set's layout parses through the primary format to its date, and the fallback rejects it; the same text without clock and zone is rejected by the primary format and parses through the fallback to the same date; both give the same year and the same month |
| Dates.ImpossibleDayRejected | Space_Missions_Analysis.py:287-292 | a text whose leading fields name a day that does not exist (31 April, 29 February of a common year) is an error under both formats |
| Frame.YearColumnFacts | Space_Missions_Analysis.py:294 | `df['Date'].apply(extract_year)` succeeds exactly when every row's date parses, and then holds each row's year, in 1..9999 |
| Frame.MonthColumnFacts | Space_Missions_Analysis.py:329 | the month column succeeds exactly when every row's date parses, and then holds each row's month, in 1..12 |
| Frame.MissionFrame.AddYearColumn | Space_Missions_Analysis.py:294 | the `Year` column is set to the years when every date parses, and otherwise is left as it was with the first date's error returned; the other columns are unchanged |
| Frame.MissionFrame.AddMonthColumn | Space_Missions_Analysis.py:329 | the same as `AddYearColumn`, for the `Month` column |
| Series.MapAll | Space_Missions_Analysis.py:294 | when `apply` succeeds, the result has one cell per input cell, and each is the conversion of its input |
| Series.MapAllFirstFailure | Space_Missions_Analysis.py:294 | when `apply` fails, the error is that of some cell, and every cell before it converted |
| Series.MapAllSucceeds | Space_Missions_Analysis.py:294 | `apply` succeeds exactly when every cell converts |
| Prices.StripCommasRemovesSeparators | Space_Missions_Analysis.py:269 | no comma survives `.str.replace(',', '')`, and the text gets no longer |
| Prices.StripCommasKeepsPlainText | Space_Missions_Analysis.py:269 | a text without commas is unchanged |
| Prices.StripCommasConcat | Space_Missions_Analysis.py:269 | removing commas from a joined text removes them from each part, and the other characters keep their order |
| Prices.StripCommasIdempotent | Space_Missions_Analysis.py:269 | removing the commas twice gives the same text as removing them once |
| Prices.UngroupedValue | Space_Missions_Analysis.py:269 | a number printed with thousands separators, with the commas removed, is the plain digit string of that number |
| Prices.GroupedPriceValue | Space_Missions_Analysis.py:269 | a price printed as `<grouped digits>.<digits>` (e.g. `5,000.0`) converts to exactly the number it shows |
| Records.DropMissingPriceFacts | Space_Missions_Analysis.py:188 | `dropna(subset=['Price'])` keeps exactly the rows with a price, each as often as before, and dropping again changes nothing |
| Records.PriceTexts | Space_Missions_Analysis.py:268 | one price text for each row that has a price, namely that row's price |
| Records.CleanPrices | Space_Missions_Analysis.py:268-269 | on success, one amount for each priced row, namely the conversion of that row's price text |
| Records.CleanPricesSucceed | Space_Missions_Analysis.py:268-269 | the cleaning succeeds exactly when every priced row's text converts |
| Frame.PricedFrame.constructor | Space_Missions_Analysis.py:268 | the copy holds exactly the rows that have a price, and their price texts |
| Frame.PricedFrame.CleanPriceColumn | Space_Missions_Analysis.py:269 | the `Price` column becomes the amounts when every text converts; otherwise it keeps its texts, and the first failing text's error is returned |
| Series.Filter | Space_Missions_Analysis.py:524 | a selection has no more rows than the frame, and each of its rows is a row of the frame that satisfies the mask |
| Series.FilterCount | Space_Missions_Analysis.py:524 | a selection holds each row that satisfies the mask as often as the frame does, and no other row |
| Series.FilterConcat | Space_Missions_Analysis.py:524 | selecting on a concatenation is selecting on each part, so the original order is kept |
| Series.Unique | Space_Missions_Analysis.py:624 | `unique()` lists no value twice |
| Series.UniqueMembers | Space_Missions_Analysis.py:624 | `unique()` lists exactly the values of the column |
| Series.UniqueFirstSeen | Space_Missions_Analysis.py:624 | `unique()` lists values in order of first appearance |
| Series.SortByOrdered | Space_Missions_Analysis.py:530 | `sort_values` gives rows in non-decreasing order of the key |
| Series.SortByPermutes | Space_Missions_Analysis.py:530 | `sort_values` is a permutation of the rows |
| Counts.TallyKeys | Space_Missions_Analysis.py:123 | the counting lists the distinct values in order of first appearance |
| Counts.TallyCount | Space_Missions_Analysis.py:123 | the count listed for a value is its number of occurrences |
| Counts.TallyTotal | Space_Missions_Analysis.py:123 | the counts sum to the number of rows |
| Counts.ValueCountsFacts | Space_Missions_Analysis.py:123 | `value_counts()` lists each distinct value exactly once with its number of occurrences (at least 1) and no other value; its counts do not increase and they sum to the number of rows |
| Counts.SortByCountSorted | Space_Missions_Analysis.py:124 | sorting `value_counts()` again by descending count with the model's stable sort changes nothing |
| Counts.SortedCountsAgree | Space_Missions_Analysis.py:124 | whatever order a sort gives equal counts, two non-increasing arrangements of the same entries have the same length and the same count at every position, so sorting again can only swap values whose counts tie |
| Counts.MostFrequentFirst | Space_Missions_Analysis.py:627 | for a non-empty column, `value_counts()` is non-empty and its first entry (`idxmax()`) has the highest count of any value |
| Counts.GroupSizesFacts | Space_Missions_Analysis.py:569 | `groupby(key).size()` lists each distinct key exactly once with its number of rows, in increasing key order |
| Frame.MergeColumn | Space_Missions_Analysis.py:517-518 | after the merge: the column has the same length; no cell is `Kazakhstan`; a cell is `Russia` exactly when it was `Kazakhstan` or `Russia`; every other cell is unchanged |
| Frame.MergeColumnIdempotent | Space_Missions_Analysis.py:518 | running the merge twice gives the same column as running it once |
| Frame.MissionFrame.MergeSovietSites | Space_Missions_Analysis.py:518 | the frame's `Country` column is replaced by its merge; `Year` and `Month` are unchanged; once all derived columns exist, no launch of the frame has country `Kazakhstan` |
| ColdWar.ColdWarLaunchesFacts | Space_Missions_Analysis.py:524 | `CW_df` holds each American or Russian launch as often as the frame does and no other launch; it selects each part of a concatenated frame separately, so the frame's order is kept |
| ColdWar.ColdWarEraFacts | Space_Missions_Analysis.py:530-531 | the `Year <= 1991` view is in year order and holds exactly the American and Russian launches up to 1991, each as often as the frame does |
| ColdWar.SuperpowerCountsFacts | Space_Missions_Analysis.py:541 | `CW_df["Country"].value_counts()` has at most two rows; the rows are keyed `USA` or `Russia`, each with that country's number of launches, the larger first; a superpower with any launch has a row, and the counts sum to the number of rows in `CW_df` |
| ColdWar.FailuresPerYearFacts | Space_Missions_Analysis.py:568-569 | the failures listed for a year are the failed launches of that year, and never more than that year's launches |
| ColdWar.FailurePercentageFacts | Space_Missions_Analysis.py:594-596 | every launch year has a row, and the rows are in increasing year order; each row is a year with launches; its percentage is missing exactly when that year had no failure, and otherwise equals failures / launches * 100, above 0 and at most 100 |
| ColdWar.ShareBounds | Space_Missions_Analysis.py:596 | a share f / n * 100 with 0 < f <= n lies in (0, 100] |
| Rankings.TopOrganisationsFacts | Space_Missions_Analysis.py:473 | the top list has at most ten organisations, none twice, and exactly ten when the frame has that many (all of them otherwise) |
| Rankings.TopOrganisationsOccur | Space_Missions_Analysis.py:473 | every listed organisation is one of the frame's |
| Rankings.TopOrganisationsOrdered | Space_Missions_Analysis.py:473 | the listed organisations appear from the most launches down |
| Rankings.TopOrganisationsDominate | Space_Missions_Analysis.py:473 | an organisation left off the list has no more launches than each listed one |
| Rankings.GatheredCount | Space_Missions_Analysis.py:471-476 | for distinct organisations, concatenating each one's rows holds exactly the rows of those organisations, each as often as in the frame |
| Rankings.GatherTopOrganisations | Space_Missions_Analysis.py:471-476 | the loop's `top_10_org` is the concatenation, in ranking order, of the rows of each top organisation; it holds every row of a top organisation as often as the frame does, and no other row |
| Rankings.YearLeaderLeads | Space_Missions_Analysis.py:627 | for a year of the frame, the country `idxmax()` picks has at least one launch that year, and no country had more launches that year |
| Rankings.TopCountry | Space_Missions_Analysis.py:626-627 | for a year of the frame, the country picked has at least one launch that year and no country has more launches that year; it is the `idxmax()` pick that `LeadingCountries` records |
| Rankings.LeadingCountries | Space_Missions_Analysis.py:624-629 | one pair per distinct year, in order of first appearance; each pair has that year's `idxmax()` country, which has the most launches of that year |

## Left out

- Plotting and display: every plotly, matplotlib and seaborn call, the
  `onclick` pick handler (lines 450-462), `print` in the top-10 loop, and
  `head()`/`shape` displays.
- Environment and I/O: the `pip` magics, the CSV load (line 57) and the
  pandas display options. The model starts from the rows as a sequence of
  `Mission` values, which have no field for the two index columns that
  line 99 drops.
- Floating point: `astype(float)` and the `* 100` at line 596 are exact
  rational arithmetic (`real`) in the model. Rounding to the nearest double
  is not modelled.
- The mean prices per organisation (line 275) and per year (line 398):
  they only feed a display and a chart, so no mean is modelled.
- Prices.ParseDecimal: covers the decimal literals `float()` accepts, with
  surrounding whitespace, a sign, digits, a fraction and an exponent.
  Underscores between digits, `inf`, `nan` and non-ASCII digits are not
  modelled and are treated as unparsable.
- Dates.ParseDate: `%Z` accepts only `UTC` and `GMT`, the names a UTC
  host's `strptime` knows, and the zone's meaning is ignored. Letter case
  is folded for ASCII letters only, and the weekday is not checked
  against the date, just as `strptime` does not check it. `strptime`'s
  `\d` also matches non-ASCII decimal digits in `%d`, `%Y`, `%H` and `%M`,
  and `int()` reads them; the model accepts the ASCII digits `0`-`9` only
  and treats other digits as unparsable.
- Tie order: `value_counts()`, `groupby().count().sort_values(...)` and
  `sort_values("Year")` order equal keys in an order pandas does not
  specify, and line 473's `groupby` first orders the organisations by
  name. The model counts in order of first appearance and sorts stably.
  That choice decides which of several equally leading countries
  `LeadingCountries` reports, the order of equally ranked organisations,
  and which organisations make the top ten when the tenth and eleventh
  counts tie. The counts, the ordering by count and the domination
  properties proved about these tables are ones any tie order also has.
- Counts.SortByCountSorted: holds for the model's stable sort only. Line
  124's default `sort_values` may swap entries whose counts tie;
  `Counts.SortedCountsAgree` states what holds for any sort, namely that
  the counts stay the same at every position.
- Rankings.TopOrganisations: counts rows per organisation through
  `value_counts()`. The source counts non-missing `Date` cells after
  `groupby`, and every row has a date, so the two counts agree.
- Rankings.YearLeader: is defined for every year, giving the empty string
  for a year without launches. The source's `idxmax()` raises there, but
  the loop only asks for years that occur, and `TopCountry` requires that.
- The country alias list at lines 215-221: a comment only, never applied.
- Line 259, which sums the raw price texts, and lines 358-364, the
  column-wise `max()`/`min()` of a display table.
- Cells broken as written: line 391 drops a missing column `year`, line
  489 uses a missing `dt.decade`, and lines 560 and 650 group by `year`.
  The top-10 loop (line 476) and the percentage cell (lines 594-595) are
  modelled with their evident intent, as described above.
- `groupby` dropping missing keys: every row has a year in the model, so
  no row is dropped.
