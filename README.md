# Video game sales dashboard: verified model of its data pipeline

The dashboard loads one table of video game sales records. It cleans the
User_Score column, derives three static views and answers two kinds of user
input: a genre picked from a dropdown and a free-text game-name search. This
project models that pipeline in Dafny over an immutable `seq<Record>` and
proves what each step promises.

- `wrappers.dfy` (`Wrappers`): `Option` and `Min`.
- `games.dfy` (`Games`): the `Record` of one row and the `Table`. Every cell
  that may be empty is an `Option`. Sales are exact whole numbers of
  hundredths of a million units, so sums are exact.
- `numerals.dfy` (`Numerals`): the numeric coercion of score text. An
  optional sign, digits and an optional decimal point become an exact
  `Decimal`; anything else, such as `"tbd"`, is not a number. Rendering a
  decimal and parsing the text back gives the same decimal.
- `loader.dfy` (`Loader`): the in-place overwrite of the User_Score column.
  It is a method over an `array<Record>`, specified by the pure `CoerceTable`.
- `ranking.dfy` (`Ranking`): "sort descending, then head(n)". Missing keys go
  last, and the result is proved sorted, drawn from the input and complete
  (no row left out outranks a row kept). It serves the top-10 list, the
  platform ranking and the genre top-5.
- `dedup.dfy` (`Dedup`): the distinct present values of a column, in order of
  first appearance. It serves the genre options and the platform groups.
- `views.dfy` (`Views`): the top-10 list, the per-platform totals and the
  yearly trend.
- `filters.dfy` (`Filters`): the genre dropdown options and default, the
  top-5 of a genre, and the name search with its three outcomes.
- `scenario.dfy` (`Scenario`): the search worked through on a three-row table.

The table is an explicit parameter of every function, so calling a view or a
filter twice on the same table gives the same result by construction.

Facts about `app.py` that shape the model:
- `sort_values` at app.py:17, 20 and 94 uses its default, unstable sort. The model promises no order among equal keys.
- app.py:17 and app.py:20 always take 10 rows and app.py:94 always takes 5. There is no count parameter and no error for a count of zero.
- app.py:109 shows only the first match. `Filters.Matches` is the list of matches and `Filters.Search` picks its first row.
- `unique()[0]` at app.py:66 raises an IndexError when no row has a genre. `Filters.DefaultGenre` returns `None` in that case.

## Model

| member | source | states |
|---|---|---|
| `Numerals.ParseDecimal` | app.py:12 | coercion never fails, and it gives a number exactly when the text is a numeral: an optional sign, then digits with at most one point and at least one digit |
| `Numerals.ParseUnsigned` | app.py:12 | unsigned text gives a number exactly when it is digits with at most one point and at least one digit, and the number is never negative |
| `Numerals.IntegerValue` | app.py:12 | digits without a point are read as the integer they spell |
| `Numerals.PointValue` | app.py:12 | digits, a point and digits (either side may be empty, not both) are read as all the digits over 10 to the number of fraction digits |
| `Numerals.SignValue` | app.py:12 | for a rest that does not itself start with a sign, a leading minus negates its value, a leading plus keeps it, and a sign before a non-numeral gives none |
| `Numerals.PointFirst` | app.py:12 | ".5" is read as one half |
| `Numerals.NegativePointFirst` | app.py:12 | "-.5" is read as minus one half |
| `Numerals.PointLast` | app.py:12 | "8." is read as eight |
| `Numerals.LeadingZeros` | app.py:12 | "08.2" is read as 8.2 |
| `Numerals.PlusSign` | app.py:12 | "+8" is read as eight |
| `Numerals.ShowParses` | app.py:12 | every decimal's canonical text coerces back to exactly that decimal, so numeric text maps to its number |
| `Numerals.TbdIsNotANumber` | app.py:12 | the dataset's sentinel "tbd" is not a number |
| `Loader.CoerceScore` | app.py:12 | a text cell becomes a number exactly when the text parses, and missing otherwise; numeric and missing cells are kept |
| `Loader.CoerceTable` | app.py:12 | the row count is preserved, no raw text is left in the column, and every other field of every row is unchanged |
| `Loader.CoerceIdempotent` | app.py:12 | coercing an already coerced table changes nothing |
| `Loader.TbdLoadsAsMissing` | app.py:12 | a row whose score is "tbd" loads with a missing score and the rest of the row intact |
| `Loader.CoerceUserScores` | app.py:12 | the in-place column update leaves the array equal to the coerced table |
| `Ranking.Insert` | app.py:17 | inserting into a ranked list keeps it ranked, and the result is the list plus the element |
| `Ranking.SortDesc` | app.py:17 | the sort is a permutation, non-increasing, with missing keys after all present ones |
| `Ranking.Top` | app.py:17 | sort then head(n) gives min(n, len) elements drawn from the input, ranked, and none left out ranks above one kept |
| `Views.TopGlobalSales` | app.py:17 | the top list has min(10, rows) rows of the table, non-increasing in global sales, missing sales last, and no excluded row sells more than an included one |
| `Views.RankedBySales` | app.py:17 | the ranking order on rows means: more global sales first, and missing sales after every present value |
| `Views.Platforms` | app.py:20 | the grouping keys are distinct; each occurs in the table, every present platform is one of them, and missing platforms form no group |
| `Views.PlatformGroups` | app.py:20 | one group per platform, whose total is the sum of global sales over exactly that platform's rows |
| `Views.SalesByPlatform` | app.py:20 | min(10, platforms) distinct platforms of the table, totals non-increasing, each total the sum over that platform's rows, no omitted platform with a larger total, and the sum of totals at most the table's total |
| `Views.GroupsFromTable` | app.py:20 | ranked groups come from the table's groups and keep distinct platforms and correct totals |
| `Views.DistinctPlatforms` | app.py:20 | groups drawn from groups with distinct platforms have distinct platforms |
| `Views.GroupsComplete` | app.py:20 | a platform cut by head(10) has a total no larger than any kept platform's total |
| `Views.SumTotalsOfGroups` | app.py:20 | the totals of distinct platforms add up to the sales of the rows on those platforms |
| `Views.GroupsPartitionSales` | app.py:20 | before ranking, the platform totals add up to exactly the sales of the rows that have a platform |
| `Views.AddToTrend` | app.py:23-29 | adding one row to a year keeps years strictly ascending, adds at most that year, and changes only that year's five sums |
| `Views.Trend` | app.py:23-29 | grouping by year gives strictly ascending years, exactly the release years of the table, and per-year sums of the five columns |
| `Views.YearlyTrend` | app.py:23-29 | years strictly ascending without duplicates, every release year present and only those, and each of the five columns the sum over exactly that year's rows |
| `Views.MissingYearsIgnored` | app.py:23-29 | rows with a missing year contribute to no entry: dropping them leaves the trend unchanged |
| `Dedup.DistinctPresent` | app.py:65 | the unique non-missing values: no duplicates, all of them and only they, in order of first appearance |
| `Filters.GenreOptions` | app.py:65 | the options are distinct genres of the table, every present genre is among them, and they are in first-appearance order |
| `Filters.DefaultGenre` | app.py:66 | there is a default exactly when some row has a genre; it is an option and the genre of the first row that has one |
| `Filters.RowsOfGenre` | app.py:93 | the filter keeps rows of the table whose genre equals the selection exactly, and all of them |
| `Filters.RowsOfGenreCount` | app.py:93 | each row of the selected genre is kept exactly as often as it occurs in the table, and no other row is kept |
| `Filters.RowsOfGenreConcat` | app.py:93 | the filter works row by row: the filter of two tables joined is the two filtered tables joined, so table order is kept |
| `Filters.GenreTop` | app.py:93-94 | at most five rows, all of the selected genre and from the table, ranked by global sales with missing last, none of the genre omitted that sells more, and an empty list for a genre no row has |
| `Filters.Contains` | app.py:105 | the substring test is true exactly when the pattern occurs at some position of the text |
| `Filters.MatchesMembers` | app.py:105 | every row the mask keeps has a name containing the query, ignoring case, and comes from the table; every such row is kept |
| `Filters.MatchesCount` | app.py:105 | each matching row is kept exactly as often as it occurs in the table, and no other row is kept |
| `Filters.MatchesConcat` | app.py:105 | the mask works row by row: the matches of two tables joined are the two lists of matches joined, so table order is kept |
| `Filters.FirstMatch` | app.py:109 | the first kept row is the first row of the table whose name matches |
| `Filters.Search` | app.py:102-109 | no query (absent or empty) gives "enter a game name"; a non-empty query without a match gives "not found"; otherwise the first matching row in table order |
| `Filters.SearchIgnoresCase` | app.py:105 | queries equal up to ASCII case give the same outcome |
| `Filters.UpperCaseQuery` | app.py:105 | "MARIO" gives the same outcome as "mario" |
| `Filters.NamelessNeverMatches` | app.py:105 | a row with a missing name is never matched or shown |
| `Scenario.SampleSearch` | app.py:102-109 | on a sample table, a matching query finds the one row whose name contains it, and the empty query is "no search" |
| `Scenario.SampleNotFound` | app.py:170-171 | on a sample table, a name no row contains gives "not found" |

## Left out

- Reading the CSV file (app.py:9) is I/O. The model takes the table as a given sequence.
- The Dash app, its layout, dropdown, input widget and callback wiring (app.py:32-85, 88-91, 98-101, 175-176) are user interface.
- Plotly figures and the HTML cards and tables built from the found row (app.py:37-46, 95, 111-169) are presentation.
- The `User_Score * 10` gauge scaling (app.py:132) is display arithmetic on floats.
- The column selection `[['Name', 'Global_Sales']]` (app.py:17, 94) only narrows what is plotted. The views return whole rows, in the same rows and order.
- Floating point: sales are exact hundredths and sums are exact, so float rounding in pandas sums is not modelled. Years are integers, not floats.
- `str.contains` treats the query as a regular expression by default. The model matches the query as a literal substring.
- Case-insensitive matching uses ASCII lower case only, with no Unicode case folding.
- `Numerals.ParseDecimal`: accepts only an optional sign, digits and one optional point. It does not cover the exponents, surrounding whitespace, or "inf"/"nan" spellings that `pd.to_numeric` also accepts.
- User scores stay exact decimals, where `pd.to_numeric` makes float64 values. "8.20" and "8.2" are different `Decimal`s in the model but the same float in pandas, and rounding to the nearest float is not modelled.
- `Ranking.Top`: promises no order among rows with equal keys, because pandas' default sort is not stable. The same holds for `Views.TopGlobalSales`, `Views.SalesByPlatform` and `Filters.GenreTop`.
- The lexicographic key order that `groupby` produces before `sort_values` is not modelled at app.py:20. That sort is unstable, so only the value order is promised.
