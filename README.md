# News sentiment aggregation and store merge

This project models the two parts of `scripts/update_sentiment.py` that carry
meaning of their own, and proves properties about them.

- **Daily aggregation** (`aggregate_daily_sentiment`, with the empty-text guard of
  `analyze_sentiment`). Each article is filed under the calendar date that the first
  ten characters of its `publishedAt` spell. The article is skipped when that prefix is
  empty, or when it is not accepted by `strptime(..., "%Y-%m-%d")`. The text scored is
  `content`, else `description`, else `""`. Empty text scores 0.0 and the analyzer is
  not called for it. The scores are grouped per date and each group is averaged.
- **Deduplicating merge** (`update_csv`). The store holds rows `(symbol, date,
  sentiment)`. Only the dates not yet stored for *this* symbol are appended, after the
  existing rows. The file is rewritten only when at least one row was appended.

Modules, one per component:

- `Wrappers` (wrappers.dfy): `Option` and `Result`.
- `Dates` (dates.dfy): `Date`, the Gregorian leap-year rule, a model of `strptime`'s
  `%Y-%m-%d` and the ISO spelling with its round trips.
- `Dicts` (dicts.dfy): `DateDict`, an insertion-ordered Python dict keyed by dates. It
  is a key sequence plus a map.
- `Scorer` (scorer.dfy): `analyze_sentiment`.
- `Grouping` (grouping.dfy): the grouping of a sequence of items by date, stated for any
  way of dating and scoring an item, the per-day mean and the lemmas about them.
- `Aggregator` (aggregator.dfy): articles, how an article is dated and scored, the
  grouping loop as a method, the function `Grouped` that specifies it and the lemmas
  that tie it to the articles.
- `StoreMerger` (merger.dfy): rows, the existing-date set, the merge loop as a method,
  the function `NewRows` that specifies it and the lemmas about them.
- `Examples` (examples.dfy): concrete runs of both parts.

Abstractions:

- The sentiment analyzer (VADER's compound score) is a parameter `analyzer: string ->
  real`.
- Scores are reals, and a day's value is the exact mean over the reals.
- An article is a record of three JSON members. Each member is missing, `null`, or a
  string.
- The store file is `Option<seq<Row>>`, where `None` means no file. `UpdateCsv`
  returns the row sequence that `to_csv` would write, or `None` when nothing is
  written. It also returns the number of appended rows. The source only prints that
  number; the model returns it.

## Model

| member | source | states |
|---|---|---|
| `Dates.DaysInMonth` | scripts/update_sentiment.py:50 | February has 29 days in Gregorian leap years and 28 otherwise; April, June, September and November have 30 days; January, March, May, July, August, October and December have 31 |
| `Dates.ParseDate` | scripts/update_sentiment.py:49-52 | every date accepted has a year from 1 to 9999, a month from 1 to 12 and a day that exists in that month of that year |
| `Dates.ParseFormat` | scripts/update_sentiment.py:50 | the `YYYY-MM-DD` spelling of every valid date parses back to that date |
| `Dates.FormatParse` | scripts/update_sentiment.py:46-50 | a ten-character prefix that parses is exactly the `YYYY-MM-DD` spelling of its date, except that a day below 10 may be written with a space instead of the leading zero |
| `Examples.IsoDatesAccepted` | scripts/update_sentiment.py:49-50 | 2024-01-01, 2024-02-29 and 2000-02-29 are accepted as those dates |
| `Examples.ImpossibleDaysRejected` | scripts/update_sentiment.py:49-52 | 2023-02-29, 1900-02-29 (not leap years) and 2024-04-31 are rejected |
| `Examples.OutOfRangeFieldsRejected` | scripts/update_sentiment.py:49-52 | month 13 and year 0000 are rejected |
| `Examples.ShortFieldsAccepted` | scripts/update_sentiment.py:49-50 | `strptime` also accepts one-digit months and days, and a space before a one-digit day |
| `Examples.OtherSpellingsRejected` | scripts/update_sentiment.py:47-52 | slashes as separators, a two-digit year and the empty prefix are rejected |
| `Scorer.Score` | scripts/update_sentiment.py:37-41 | empty text scores exactly 0.0; any other text gets the analyzer's compound score, unrounded |
| `Scorer.EmptyTextIgnoresAnalyzer` | scripts/update_sentiment.py:38-39 | the score of empty text is 0.0 whatever analyzer is supplied, so the analyzer is not consulted |
| `Aggregator.ArticleDate` | scripts/update_sentiment.py:46-52 | an article is filed only under a date that `datetime.date` can represent: a year from 1 to 9999, a month from 1 to 12 and a day of that month |
| `Aggregator.StampedOnDay` | scripts/update_sentiment.py:46-50 | an article whose `publishedAt` starts with the `YYYY-MM-DD` spelling of a valid date is filed under that date, whatever follows the tenth character |
| `Aggregator.FiledDaySpelled` | scripts/update_sentiment.py:46-50 | an article with at least ten characters of `publishedAt` is filed only under the date those ten characters spell: its `YYYY-MM-DD` spelling, or that spelling with a space for the leading zero of the day |
| `Aggregator.PublishedDate` | scripts/update_sentiment.py:46-52 | the head of the loop body raises exactly when `publishedAt` is `null`, and otherwise yields the article's date, or nothing when the article is skipped |
| `Aggregator.ArticleText` | scripts/update_sentiment.py:53 | the text is `content` when that is a non-empty string, otherwise `description` when that is, otherwise `""` |
| `Grouping.GroupBy` | scripts/update_sentiment.py:44-55 | the dict the grouping loop builds lists each date once, and no date's group is empty |
| `Aggregator.AggregateDailySentiment` | scripts/update_sentiment.py:43-58 | raises exactly when some article's `publishedAt` is `null`. Otherwise the result has an entry for exactly the dates some article is filed under, and each entry is the mean of exactly the scores of the articles filed under that date |
| `Grouping.GroupByStep` | scripts/update_sentiment.py:45-55 | one iteration of the loop: a skipped item leaves the dict as it was, and a dated one appends its score to its date's group |
| `Aggregator.GroupedStep` | scripts/update_sentiment.py:45-55 | the same for articles: an article without a date leaves the dict as it was, and a dated one appends the score of its text to its date's group |
| `Grouping.FiledUnderSnoc` | scripts/update_sentiment.py:45-55 | some item of a sequence is filed under a date exactly when some item before the last is, or the last one is |
| `Grouping.GroupByKeys` | scripts/update_sentiment.py:44-57 | the dict's dates are exactly the distinct dates of the items that are not skipped |
| `Grouping.GroupByScores` | scripts/update_sentiment.py:44-55 | each date's group is exactly the scores of the items filed under it, in their order; a date outside the dict has no such items |
| `Grouping.GroupSizesSum` | scripts/update_sentiment.py:44-55 | the group sizes add up to the number of items that are not skipped |
| `Aggregator.ArticleGroupSizes` | scripts/update_sentiment.py:44-55 | the group sizes add up to the number of articles that are not skipped, so no dated article is lost or counted twice |
| `Grouping.SkippedItemIgnored` | scripts/update_sentiment.py:47-52 | an item that is skipped leaves the grouping as it was |
| `Grouping.FiledItemAppended` | scripts/update_sentiment.py:53-55 | an item that is filed appends its own score to its date's group, creating the group if needed |
| `Aggregator.UndatedArticleIgnored` | scripts/update_sentiment.py:46-52 | an article without a valid date prefix changes nothing |
| `Aggregator.TextlessArticleScoresZero` | scripts/update_sentiment.py:53-55 | a dated article without content or description is not dropped: it appends 0.0 to its date's group |
| `Grouping.AddScore` | scripts/update_sentiment.py:55 | appending to the `defaultdict(list)` keeps it a dict with distinct keys; a new date is added last with the group [score], a known date's group gains the score at its end, and no other date changes |
| `Grouping.Mean` | scripts/update_sentiment.py:57 | `sum(scores)/len(scores)`: the mean times the number of scores is their sum; `Grouping.MeanWithin` and `Grouping.MeanPermutation` give its bounds and its independence of order |
| `Grouping.NonEmptyKeysOrder` | scripts/update_sentiment.py:57 | leaving out the empty groups keeps the relative order of the dates that remain |
| `Grouping.DailyAverages` | scripts/update_sentiment.py:57 | every non-empty group becomes its mean, the empty ones are left out, and the dates that remain keep their relative order; when no group is empty, as `Grouping.GroupBy` guarantees, the dates are exactly those of the grouping in the same order |
| `Aggregator.DailyAveragesMeanScores` | scripts/update_sentiment.py:44-57 | the averaged dict keeps the grouping's date order, has exactly the dates of the dated articles, and gives each date the mean of its articles' scores |
| `Grouping.MeanWithin` | scripts/update_sentiment.py:41 | a day's mean lies between the lowest and highest of its scores, so within [-1, 1] for compound scores |
| `Grouping.SumPermutation` | scripts/update_sentiment.py:57 | the sum of a day's scores does not depend on the order of the articles |
| `Grouping.MeanPermutation` | scripts/update_sentiment.py:57 | the mean of a day's scores does not depend on the order of the articles |
| `Examples.TextlessArticleGrouped` | scripts/update_sentiment.py:44-55 | two articles stamped with the ISO spelling of the same date, the second with `null` content and description, give that date the single group [score(text), 0.0] |
| `Examples.OneDayAverage` | scripts/update_sentiment.py:57 | a dict with one group of two scores averages to the single entry (x + y) / 2 |
| `Examples.NullDateRaises` | scripts/update_sentiment.py:46 | a `null` `publishedAt` raises TypeError even after a valid article |
| `StoreMerger.StoredDates` | scripts/update_sentiment.py:69 | the existing-date set holds exactly the dates of the rows of the given symbol |
| `StoreMerger.ExistingDatesAsWritten` | scripts/update_sentiment.py:62-69 | as written, reading the existing dates raises exactly when the store file is missing; otherwise it gives the symbol's stored dates |
| `StoreMerger.MissingStoreRaises` | scripts/update_sentiment.py:64-69 | as written, a missing store file makes the `.dt` accessor raise AttributeError |
| `StoreMerger.LoadedRows` | scripts/update_sentiment.py:62-66 | a missing store reads as no rows; an existing one as its rows |
| `StoreMerger.ExistingDates` | scripts/update_sentiment.py:62-69 | corrected: a missing store has no stored dates; wherever the code does not raise, the result is the code's date set |
| `StoreMerger.NewRows` | scripts/update_sentiment.py:72-75 | the loop yields at most one row per input date; `StoreMerger.NewRowsShape`, `StoreMerger.NewRowsEmpty`, `StoreMerger.NewRowsOncePerDate` and `StoreMerger.NewRowsDistinctDates` state which rows |
| `StoreMerger.Appended` | scripts/update_sentiment.py:69-75 | every appended row is for the symbol, on an input date not yet stored for it; nothing is appended exactly when every input date is already stored |
| `StoreMerger.StoreAfter` | scripts/update_sentiment.py:77-85 | the store is left as it was exactly when nothing is appended; a rewritten store starts with the old rows, unchanged |
| `StoreMerger.AppendedRowStored` | scripts/update_sentiment.py:78-82 | every appended row's date is stored for the symbol after the merge |
| `StoreMerger.StoreAfterShape` | scripts/update_sentiment.py:72-82 | when something is appended, the rewritten store holds the old rows first and unchanged, then only rows for the symbol on dates it had not stored |
| `StoreMerger.UpdateCsv` | scripts/update_sentiment.py:60-85 | the count is the number of new rows. Nothing is written exactly when every input date is already stored for the symbol. Otherwise the old rows come first and unchanged, followed by the new rows, each for the symbol and a date not stored for it |
| `StoreMerger.NewRowsShape` | scripts/update_sentiment.py:72-75 | every new row carries the symbol, an input date not already stored, and that date's input value |
| `StoreMerger.NewRowsEmpty` | scripts/update_sentiment.py:72-78 | there are no new rows exactly when every input date is already stored |
| `StoreMerger.NewRowsOncePerDate` | scripts/update_sentiment.py:73-75 | each input date is appended once when it is not stored for the symbol, and not at all when it is |
| `StoreMerger.NewRowsDistinctDates` | scripts/update_sentiment.py:73-75 | no two new rows have the same date |
| `StoreMerger.MergeKeepsKeysUnique` | scripts/update_sentiment.py:69-80 | if no (symbol, date) pair was stored twice before a merge, none is stored twice after it |
| `StoreMerger.MergeStoresEveryDate` | scripts/update_sentiment.py:69-82 | after a merge every date of the data is stored for the symbol |
| `StoreMerger.MergeIdempotent` | scripts/update_sentiment.py:69-85 | merging the same data a second time appends nothing and leaves the store as it is |
| `StoreMerger.UniqueAfterMerges` | scripts/update_sentiment.py:88-94 | after any sequence of per-symbol merges into a store without duplicates, no (symbol, date) pair occurs twice |
| `Examples.SpyTwoDays` | scripts/update_sentiment.py:69-83 | with no store file, SPY with 2024-01-01 = 0.35 and 2024-01-02 = -0.10 appends exactly those two rows in that order; a later merge of 2024-01-01 = 0.99 for SPY appends nothing |
| `Examples.OtherSymbolDoesNotBlock` | scripts/update_sentiment.py:69-75 | a date stored only for QQQ does not stop the SPY row for that date from being appended after the QQQ row |

## Left out

- `fetch_news` (lines 18-35) is an HTTP request to NewsAPI followed by JSON decoding. The model takes the decoded article list as its input.
- VADER's `polarity_scores` (line 40) is a foreign library. It is the parameter `analyzer`, and its range [-1, 1] is assumed only by `Grouping.MeanWithin`.
- pandas `read_csv`, `to_csv` and `concat` (lines 63, 79-82) read and write the CSV text. The store is modelled as its sequence of rows. The text form of dates and floats, and pandas turning symbol strings such as `NA` into missing values, are not modelled.
- `Grouping.DailyAverages`: the mean is exact over the reals, and `round(..., 2)` and floating-point summation are not modelled. The same holds for `Aggregator.AggregateDailySentiment` and `Aggregator.DailyAveragesMeanScores`.
- `Dates.ParseDate`: only ASCII digits are modelled. Python's `\d` also matches other Unicode decimal digits, which the model rejects.
- Article members other than a string, `null` or a missing member (numbers, lists) are not modelled. Neither are the exceptions they would raise.
- The configuration from `utcnow()` and the environment (lines 12-16) is left out. So are `print` logging and the `main` driver (lines 87-94). `StoreMerger.MergeAll` only folds the merge over a sequence of (symbol, data) batches, to state uniqueness across runs.
- The store is read, merged and rewritten once per symbol with no locking. Concurrent runs are not modelled.

## Findings

| source | as written | input that shows it | evidently intended | confidence | as-written member | corrected member |
|---|---|---|---|---|---|---|
| scripts/update_sentiment.py:64-69 | When the CSV file is missing, the fallback `pd.DataFrame(columns=['symbol', 'date', 'sentiment'])` has untyped (object) columns. So `df[...]['date'].dt.date` raises `AttributeError: Can only use .dt accessor with datetimelike values`, and the first run of `update_csv` fails before anything is written | no `news_sentiment.csv` yet, any symbol, any sentiment data | a missing store acts as an empty store: every date is new and the file is created with those rows | high (pandas' `.dt` accessor refuses non-datetime columns); not executed | `StoreMerger.ExistingDatesAsWritten` with `StoreMerger.MissingStoreRaises` | `StoreMerger.ExistingDates` (used by `StoreMerger.UpdateCsv`), with `Examples.SpyTwoDays` |
