# Gamezone order pipeline: cleaning and features

This project models the order-cleaning and feature pipeline of the Gamezone
sales analysis in Dafny and proves properties about it.

- **Cleaning pass** (`Text`, `Cleaning`).
  - The text normalizer trims, collapses whitespace runs, lowercases, and maps the null tokens to missing.
  - A loop applies it in place to the listed text columns and counts the values changed in each.
  - The timestamps are coerced to UTC instants.
  - The ship date is projected from the ship instant.
  - The ship-before-purchase flag is set and counted.
- **Grouped aggregation** (`Grouping`, `Orders`). This is pandas' `groupby(...).agg(...)`:
  - rows with a missing key are dropped;
  - groups come out in ascending key order, one per distinct key;
  - each group folds its rows.
  It also covers the descending sort by value and `head(n)`.
- **Churn indicators** (`Churn`).
  - The snapshot is the maximum purchase instant.
  - Per user it computes the last purchase, the number of distinct orders and the total spend.
  - Recency is the whole days to the snapshot, and the churn flag is `recency > 90`.
- **Sales and lifetime value** (`Sales`). The daily revenue series in date order, the per-user revenue ranked highest first, and its first ten entries.
- **Product insights** (`Products`). The per-product revenue ranking, the top five products, and the month×product revenue of those products.

Modelling choices:
- The cleaning stage's table is a class `Cleaning.Frame`. It holds a map from column names to typed columns plus a row count. Its methods update the map in place, as the script reassigns `df[col]`.
- The analyses are pure, so they are functions over a sequence of `Orders.Order` records.
- Strings are `seq<char>`.
- A missing cell is `Option.None`.
- Instants are UTC seconds since the epoch.
- Prices are integer cents.
- A day is `instant / 86400`, rounded down.
- A month is a month count computed from the proleptic Gregorian calendar.

Two points where the code's own behaviour decides the model:
- **Ties.** The descending sorts call `sort_values(..., ascending=False)` with pandas' default unstable sort, so the code fixes no order among equal totals. The contracts state only the non-increasing order, the permutation and the top-k dominance.
- **Churn threshold.** The code fixes it as the constant `CHURN_THRESHOLD_DAYS = 90`, and so does the model.

## Model

| member | source | states |
|---|---|---|
| Text.TrimStart | notebooks/02_data_cleaning.py:22 | leading-whitespace removal yields a suffix of the input, everything it drops is whitespace, and the suffix does not start with whitespace |
| Text.TrimEnd | notebooks/02_data_cleaning.py:22 | trailing-whitespace removal yields a prefix of the input, everything it drops is whitespace, and the prefix does not end with whitespace |
| Text.Strip | notebooks/02_data_cleaning.py:22 | `str.strip()` yields a slice of the input with only whitespace before and after it, and no whitespace at either of its own ends |
| Text.StripBordered | notebooks/02_data_cleaning.py:22 | the stripped value is the slice that starts where the leading whitespace ends, with only whitespace outside it |
| Text.CollapseFirst | notebooks/02_data_cleaning.py:23 | the `\s+` to space rewrite is empty iff its input is, and starts with a space iff the input starts with whitespace |
| Text.CollapseLast | notebooks/02_data_cleaning.py:23 | the rewrite ends with a space iff the input ends with whitespace |
| Text.CollapseEnds | notebooks/02_data_cleaning.py:23 | both ends of the rewrite at once |
| Text.CollapseShape | notebooks/02_data_cleaning.py:23 | after the rewrite the only whitespace is the plain space, never two in a row |
| Text.SingleSpacedCons | notebooks/02_data_cleaning.py:23 | prefixing a non-space, or a space before a non-space, keeps a string single-spaced |
| Text.LowerKeepsSpacing | notebooks/02_data_cleaning.py:24 | `str.lower()` keeps the length, keeps spaces where they are, leaves no upper-case letter, and keeps a single-spaced string single-spaced |
| Text.Canonical | notebooks/02_data_cleaning.py:21-24 | strip, collapse and lower yield a trimmed, single-spaced string with no upper-case letter |
| Text.Normalize | notebooks/02_data_cleaning.py:20-26 | missing stays missing; a present result is canonical and never a null token |
| Text.SingleSpacedTail | notebooks/02_data_cleaning.py:23 | the tail of a single-spaced string is single-spaced and cannot start with whitespace after a space |
| Text.CollapseSingleSpaced | notebooks/02_data_cleaning.py:23 | the rewrite leaves a single-spaced string unchanged |
| Text.CanonicalFixpoint | notebooks/02_data_cleaning.py:21-24 | the strip/collapse/lower chain leaves a canonical string unchanged |
| Text.NormalizeIdempotent | notebooks/02_data_cleaning.py:20-26 | normalizing twice equals normalizing once |
| Text.NormalizeKeepsCanonical | notebooks/02_data_cleaning.py:20-26 | a canonical value that is not a null token is a fixed point |
| Text.TrimStartPadded | notebooks/02_data_cleaning.py:22 | leading whitespace padding does not change the left-trimmed form |
| Text.TrimEndPadded | notebooks/02_data_cleaning.py:22 | trailing whitespace padding does not change the right-trimmed form |
| Text.TrimStartAppend | notebooks/02_data_cleaning.py:22 | left-trimming a string with whitespace appended appends that whitespace, unless the string was all whitespace |
| Text.StripPadded | notebooks/02_data_cleaning.py:22 | whitespace on both sides does not change the stripped form |
| Text.LowerTail | notebooks/02_data_cleaning.py:24 | lowercasing commutes with dropping the first or last character |
| Text.TrimStartLowerStep | notebooks/02_data_cleaning.py:22-24 | one step of left-trimming commutes with lowercasing |
| Text.TrimStartLower | notebooks/02_data_cleaning.py:22-24 | left-trimming commutes with lowercasing |
| Text.TrimEndLowerStep | notebooks/02_data_cleaning.py:22-24 | one step of right-trimming commutes with lowercasing |
| Text.TrimEndLower | notebooks/02_data_cleaning.py:22-24 | right-trimming commutes with lowercasing |
| Text.LowerConcat | notebooks/02_data_cleaning.py:24 | lowercasing distributes over concatenation |
| Text.LowerHeadSpace | notebooks/02_data_cleaning.py:24 | lowercasing keeps a leading whitespace character |
| Text.LowerConsSpace | notebooks/02_data_cleaning.py:24 | lowercasing keeps a leading space |
| Text.CollapseLowerSpace | notebooks/02_data_cleaning.py:23-24 | the collapse/lower commutation step for input that starts with whitespace |
| Text.CollapseLowerWord | notebooks/02_data_cleaning.py:23-24 | the collapse/lower commutation step for input that starts with a non-space |
| Text.CollapseLower | notebooks/02_data_cleaning.py:23-24 | collapsing commutes with lowercasing |
| Text.StripLower | notebooks/02_data_cleaning.py:22-24 | stripping commutes with lowercasing |
| Text.LowerIdempotent | notebooks/02_data_cleaning.py:24 | lowercasing twice is lowercasing once |
| Text.CanonicalIgnoresCase | notebooks/02_data_cleaning.py:21-24 | the canonical form does not depend on letter case |
| Text.LowerWordIsCanonical | notebooks/02_data_cleaning.py:15-18 | a string without whitespace or upper-case letters is canonical |
| Text.NullTokensAreCanonical | notebooks/02_data_cleaning.py:15-18 | every null token is already in canonical form |
| Text.NullTokenVariant | notebooks/02_data_cleaning.py:15-26 | any null token, in any letter case, with any whitespace on either side and any run of whitespace between its words, normalizes to missing |
| Text.CollapseWord | notebooks/02_data_cleaning.py:23 | a run of non-whitespace passes through the rewrite unchanged |
| Text.CollapseGap | notebooks/02_data_cleaning.py:23 | a whitespace run before a non-space becomes one space |
| Text.NormalizeNullExample | notebooks/02_data_cleaning.py:20-26 | `"  N/A "` normalizes to missing |
| Text.NormalizeInnerGapExample | notebooks/02_data_cleaning.py:20-26 | `"Not \t Available"` (a tab between spaces inside the token) normalizes to missing |
| Text.InnerGapCollapse | notebooks/02_data_cleaning.py:23 | the rewrite turns `"Not \t Available"` into `"Not Available"` |
| Text.InnerGapLower | notebooks/02_data_cleaning.py:24 | `"Not Available"` lowercases to `"not available"` |
| Text.WordGap | notebooks/02_data_cleaning.py:23 | a word, a whitespace run, then a non-space: the run becomes one space |
| Text.CollapseThreeWords | notebooks/02_data_cleaning.py:23 | three words separated by whitespace runs come out separated by single spaces |
| Text.NormalizeWordsExample | notebooks/02_data_cleaning.py:20-26 | `"Xbox   Series X"` normalizes to `"xbox series x"` |
| Text.CanonicalWordsExample | notebooks/02_data_cleaning.py:21-24 | the canonical form of `"Xbox   Series X"` is `"xbox series x"` |
| Text.LowerExample | notebooks/02_data_cleaning.py:24 | `"Xbox Series X"` lowercases to `"xbox series x"` |
| Text.StripCollapseExample | notebooks/02_data_cleaning.py:22-23 | strip then collapse turns `"Xbox   Series X"` into `"Xbox Series X"` |
| Text.StripExample | notebooks/02_data_cleaning.py:22 | `"Xbox   Series X"` has nothing to strip |
| Text.CollapseExample | notebooks/02_data_cleaning.py:23 | the run of three spaces in `"Xbox   Series X"` becomes one |
| Text.Collapse | notebooks/02_data_cleaning.py:23 | `str.replace(r"\s+", " ", regex=True)`; specified by CollapseFirst, CollapseLast, CollapseShape, CollapseSingleSpaced, CollapseWord and CollapseGap |
| Text.Lower | notebooks/02_data_cleaning.py:24 | `str.lower()` on ASCII letters; specified by LowerKeepsSpacing, LowerConcat and LowerIdempotent |
| Options.MaxOption | notebooks/04_churn_indicators.py:28 | `max` that skips missing values: missing iff both sides are, at least each present side, and one of them |
| Cleaning.CountChanges | notebooks/02_data_cleaning.py:46 | the change count is at most the number of rows |
| Cleaning.PresentColumns | notebooks/02_data_cleaning.py:42-43 | a column is visited iff it is listed and present |
| Cleaning.ToInstants | notebooks/02_data_cleaning.py:51-52 | `to_datetime(errors="coerce")` keeps the height, parses every present text cell, keeps instants, turns a date into its midnight, and turns a boolean column into all missing |
| Cleaning.DayOf | notebooks/02_data_cleaning.py:53 | the date of an instant is its day rounded down: `d*86400 <= t < (d+1)*86400` |
| Cleaning.CountTrue | notebooks/02_data_cleaning.py:58 | the flagged count is at most the number of rows |
| Cleaning.Frame.constructor | notebooks/02_data_cleaning.py:32 | the table starts with the columns it was read with, all of one height |
| Cleaning.Frame.NormalizeTextColumns | notebooks/02_data_cleaning.py:42-48 | the loop leaves the table equal to `NormalizedTable` (listed present columns normalized, the rest untouched) and returns one count per visited column, keeping the height |
| Cleaning.Frame.CoerceAndFlag | notebooks/02_data_cleaning.py:51-58 | when both timestamp columns are present and neither or both are boolean, the table becomes `Coerced` and the result is the number of set flags; otherwise (the `KeyError`, or the `TypeError` of comparing a time-zone-naive column with a UTC one) the table is unchanged and the result is None |
| Cleaning.NormalizedTableStep | notebooks/02_data_cleaning.py:42-47 | one turn of the loop normalizes the next listed column if present and appends its count |
| Cleaning.TextColumnsDistinct | notebooks/02_data_cleaning.py:35-41 | no column is listed twice |
| Cleaning.NormalizedTableIsClean | notebooks/02_data_cleaning.py:42-47 | after the loop the columns and height are kept, and every cell of a listed column is missing or canonical and not a null token |
| Cleaning.NormalizeCellsIdempotent | notebooks/02_data_cleaning.py:45 | normalizing a column twice equals once |
| Cleaning.NormalizedTableIdempotent | notebooks/02_data_cleaning.py:42-47 | cleaning an already cleaned table changes nothing |
| Cleaning.FillNaIsFaithful | notebooks/02_data_cleaning.py:46 | after `fillna("<NA>")` two cells differ iff the normalizer changed the value |
| Cleaning.NaSentinelSurvives | notebooks/02_data_cleaning.py:46 | the literal text `"<NA>"` normalizes to `"<na>"`, so the fill cannot mask a change |
| Cleaning.ChangeCountIsChangedRows | notebooks/02_data_cleaning.py:46 | the count equals the number of rows whose value changed |
| Cleaning.ChangedRowsLast | notebooks/02_data_cleaning.py:46 | the changed-row set grows by the last row iff that row changed |
| Cleaning.NoChangesOnCleanColumn | notebooks/02_data_cleaning.py:46 | an already normalized column reports zero changes |
| Cleaning.ChangeReportShape | notebooks/02_data_cleaning.py:42-48 | one report entry per listed present column, in order, each at most the height |
| Cleaning.ChangeReportOnCleanTable | notebooks/02_data_cleaning.py:42-48 | running the loop on its own output reports zero everywhere |
| Cleaning.ChangeReportZero | notebooks/02_data_cleaning.py:42-48 | every prefix of the listed columns reports zero on the cleaned table |
| Cleaning.CoercedFails | notebooks/02_data_cleaning.py:51-56 | coercion fails iff a timestamp column is absent (the `KeyError`) or exactly one of them is boolean (its all-missing result is time-zone-naive, and the comparison at line 56 raises `TypeError`) |
| Cleaning.CoercedShape | notebooks/02_data_cleaning.py:51-57 | the added columns: the date is present iff the ship instant is and is its day; the flag is set iff both instants are present and ship < purchase; other columns and the height are kept |
| Cleaning.CountTrueIsMultiplicity | notebooks/02_data_cleaning.py:58 | the printed count is the number of true flags |
| Cleaning.FlagTimestampsFlagNothing | notebooks/02_data_cleaning.py:51-58 | when both timestamp columns are boolean the pass does not stop: coercion succeeds, no row is flagged and the printed count is 0 |
| Cleaning.CountTrueNone | notebooks/02_data_cleaning.py:58 | with no flag set the count is 0 |
| Cleaning.NormalizeCells | notebooks/02_data_cleaning.py:45 | `normalize_text_series` over a column; specified by the per-cell contract of Text.Normalize and by NormalizeCellsIdempotent |
| Cleaning.NormalizedTable | notebooks/02_data_cleaning.py:42-47 | the table the column loop leaves; specified by NormalizedTableStep, NormalizedTableIsClean and NormalizedTableIdempotent |
| Cleaning.Coerced | notebooks/02_data_cleaning.py:51-57 | the table after timestamp coercion, date projection and flagging, or None where the script stops; specified by CoercedFails and CoercedShape |
| Cleaning.FillNa | notebooks/02_data_cleaning.py:46 | `astype("string").fillna("<NA>")` of one cell; specified by FillNaIsFaithful |
| Cleaning.ChangeReport | notebooks/02_data_cleaning.py:42-48 | the per-column change counts of the normalization loop; specified by ChangeReportShape |
| Cleaning.Dates | notebooks/02_data_cleaning.py:53 | `SHIP_TS_dt.dt.date`; specified by CoercedShape (present iff the ship instant is, and equal to its day) |
| Cleaning.ShipBefore | notebooks/02_data_cleaning.py:56 | `SHIP_TS_dt < PURCHASE_TS`; specified by CoercedShape (set iff both instants are present and ship is earlier) |
| Grouping.KeysCons | 03_sales_and_ltv.py:24 | the keys of a table are its first key plus the keys of the rest |
| Grouping.UpsertKeys | 03_sales_and_ltv.py:24 | folding a row into the groups adds its key and no other |
| Grouping.UpsertAbove | 03_sales_and_ltv.py:24 | folding in a key above a bound keeps every key above the bound |
| Grouping.UpsertAscending | 03_sales_and_ltv.py:24 | folding a row into ascending groups keeps them ascending |
| Grouping.ConsAscending | 03_sales_and_ltv.py:24 | a key below all keys of an ascending table can be put in front |
| Grouping.FindMissing | 03_sales_and_ltv.py:24 | looking up an absent key gives the empty fold |
| Grouping.UpsertFind | 03_sales_and_ltv.py:24-25 | folding a row changes only its own key's group, by one fold step |
| Grouping.UpsertSum | 03_sales_and_ltv.py:24-25 | folding a row adds exactly its amount to the selected total |
| Grouping.GroupByAscending | 03_sales_and_ltv.py:23-27 | groups come out in strictly ascending key order |
| Grouping.PresentKeysCons | 03_sales_and_ltv.py:24 | the present keys of a table are those of the first row plus those of the rest |
| Grouping.GroupByKeys | 03_sales_and_ltv.py:24 | one group per distinct present key and no other (missing keys dropped) |
| Grouping.GroupByFind | 03_sales_and_ltv.py:24-25 | the group of a key holds the fold of exactly that key's rows |
| Grouping.FindAt | 03_sales_and_ltv.py:24 | in an ascending table, looking up an entry's key gives that entry's value |
| Grouping.GroupByValues | 03_sales_and_ltv.py:24-25 | every group's value is the fold of its own rows |
| Grouping.GroupBySum | 03_sales_and_ltv.py:24-25 | an additive aggregation loses nothing: the group totals equal the row totals for the selected keys |
| Grouping.InsertDescPermutes | 03_sales_and_ltv.py:44 | inserting adds exactly the one entry |
| Grouping.InsertDescOrdered | 03_sales_and_ltv.py:44 | inserting into a non-increasing list keeps it non-increasing |
| Grouping.InsertDescSum | 03_sales_and_ltv.py:44 | inserting adds the entry's amount to every total |
| Grouping.SortDescPermutes | 03_sales_and_ltv.py:44 | the descending sort is a permutation |
| Grouping.SortDescOrdered | 03_sales_and_ltv.py:44 | the descending sort is non-increasing by value |
| Grouping.SortDescSum | 03_sales_and_ltv.py:44 | the descending sort keeps every total |
| Grouping.DistinctHead | 03_sales_and_ltv.py:44 | in a table with distinct keys, the first key is not among the rest |
| Grouping.ConsDistinct | 03_sales_and_ltv.py:44 | a new key in front keeps keys distinct |
| Grouping.InsertDescKeys | 03_sales_and_ltv.py:44 | inserting adds the entry's key and keeps keys distinct |
| Grouping.SortDescKeys | 03_sales_and_ltv.py:44 | sorting keeps the key set and keeps keys distinct |
| Grouping.DistinctKeysCount | 03_sales_and_ltv.py:47 | with distinct keys there are as many keys as entries |
| Grouping.AscendingDistinct | 03_sales_and_ltv.py:24 | strictly ascending keys are distinct |
| Grouping.GroupBy | 03_sales_and_ltv.py:23-27 | the sorted, missing-key-dropping `groupby` fold; specified by GroupByAscending, GroupByKeys, GroupByFind, GroupByValues and GroupBySum |
| Grouping.SortDesc | 03_sales_and_ltv.py:44 | `sort_values(..., ascending=False)`; specified by SortDescPermutes, SortDescOrdered, SortDescKeys and SortDescSum |
| Orders.StrLessIrreflexive | 03_sales_and_ltv.py:41 | no string sorts before itself |
| Orders.StrLessTransitive | 03_sales_and_ltv.py:41 | string order is transitive |
| Orders.StrLessTotal | 03_sales_and_ltv.py:41 | distinct strings are ordered one way or the other |
| Orders.StrLessIsOrder | 03_sales_and_ltv.py:41 | string order is a strict total order, so string-keyed groups are ordered and distinct |
| Orders.IntLessIsOrder | 03_sales_and_ltv.py:24 | date order is a strict total order |
| Orders.PairLessIsOrder | 05_product_insights.py:35 | (month, product) order is a strict total order |
| Orders.ReduceIsSum | 03_sales_and_ltv.py:24-25 | a group of `["USD_PRICE"].sum()` is the total price of its rows, with missing prices counted as 0 |
| Orders.TotalsFacts | 03_sales_and_ltv.py:41-43 | per-key revenue: distinct keys, exactly the present keys, each the key's price total, together the revenue of all keyed rows |
| Orders.RankedFacts | 03_sales_and_ltv.py:40-45 | the ranking is a permutation of the totals, non-increasing, one entry per present key, each its total, with no revenue lost |
| Orders.MonthOfEpoch | 05_product_insights.py:20 | the epoch falls in January 1970 |
| Orders.MonthBeforeEpoch | 05_product_insights.py:20 | the second before the epoch falls in December 1969 |
| Orders.MonthOfLeapDay | 05_product_insights.py:20 | 2020-02-29T23:59:59Z falls in February 2020 |
| Orders.MonthAfterLeapDay | 05_product_insights.py:20 | 2020-03-01T00:00:00Z falls in March 2020 |
| Orders.Totals | 03_sales_and_ltv.py:41-43 | `groupby(key)["USD_PRICE"].sum()`; specified by TotalsFacts |
| Orders.Ranked | 03_sales_and_ltv.py:40-45 | the per-key totals sorted highest first; specified by RankedFacts |
| Orders.MonthOf | 05_product_insights.py:20 | the calendar month of an instant; checked by MonthOfEpoch, MonthBeforeEpoch, MonthOfLeapDay and MonthAfterLeapDay only |
| Churn.MaxOptionExtends | notebooks/04_churn_indicators.py:28 | the running `max` over a growing set stays its maximum |
| Churn.Snapshot | notebooks/04_churn_indicators.py:23 | the snapshot is the largest present purchase instant, missing iff there is none |
| Churn.ReduceActivity | notebooks/04_churn_indicators.py:26-31 | a user's aggregation holds the latest of their instants, the set of their order ids and their price total |
| Churn.UserInstantsWithin | notebooks/04_churn_indicators.py:23-28 | a user's instants are among all instants |
| Churn.FrequencyBound | notebooks/04_churn_indicators.py:29 | a user has no more distinct order ids than rows |
| Churn.ChurnBoundary | notebooks/04_churn_indicators.py:34-35 | churned iff at least 91 whole days separate the instants: exactly 90 days is not churn |
| Churn.RfmUsers | notebooks/04_churn_indicators.py:26-32 | one RFM row per distinct present user id, in ascending id order |
| Churn.RfmRowFacts | notebooks/04_churn_indicators.py:23-35 | each row: last purchase is the user's maximum and at most the snapshot; frequency is the distinct order-id count and at most the user's rows; monetary is the price total; recency is present iff last purchase is, never negative, the floor of the gap in days; churned is 0 or 1, and 1 iff the gap is at least 91 days |
| Churn.TotalOfRows | notebooks/04_churn_indicators.py:30 | the table's monetary total is the aggregation's spend total |
| Churn.RfmConservesSpend | notebooks/04_churn_indicators.py:30 | the monetary values add up to the revenue of all rows with a user id |
| Churn.RecencyDays | notebooks/04_churn_indicators.py:34 | `(snapshot_date - last_purchase).dt.days`; specified by RfmRowFacts |
| Churn.Churned | notebooks/04_churn_indicators.py:35 | `(recency_days > 90).astype(int)`; specified by ChurnBoundary and RfmRowFacts |
| Churn.Rfm | notebooks/04_churn_indicators.py:26-35 | the RFM table; specified by RfmUsers, RfmRowFacts and RfmConservesSpend |
| Churn.Absorb | notebooks/04_churn_indicators.py:27-31 | folds one order row into its user's running maximum, id set and total; specified by ReduceActivity |
| Churn.Activities | notebooks/04_churn_indicators.py:26-32 | the per-user aggregation of the grouped rows; specified by RfmUsers and RfmRowFacts |
| Churn.ToRow | notebooks/04_churn_indicators.py:34-35 | one RFM row from a user's aggregate and the snapshot; specified by RfmRowFacts |
| Sales.DailyFacts | 03_sales_and_ltv.py:22-28 | daily rows are strictly ascending by date, one per present date, each that day's price total, and together the revenue of all dated rows |
| Sales.TopCustomersFacts | 03_sales_and_ltv.py:47 | the top ten are the first min(10, users) LTV entries and none of the rest has a higher LTV |
| Sales.Daily | 03_sales_and_ltv.py:22-28 | the daily revenue series; specified by DailyFacts |
| Orders.DayKey | 03_sales_and_ltv.py:22-24 | the `purchase_date` group key of a row, missing when the purchase instant is; specified by DailyFacts |
| Sales.Ltv | 03_sales_and_ltv.py:40-45 | revenue per user, highest first; specified by RankedFacts with the user key |
| Sales.TopCustomers | 03_sales_and_ltv.py:47 | `ltv.head(10)`; specified by TopCustomersFacts |
| Products.TopProductsFacts | 05_product_insights.py:32 | at most five distinct names (all products when fewer), each a product of some row |
| Products.TopProductsLead | 05_product_insights.py:22-32 | no product outside the top five earned more than any inside it |
| Products.KeepProducts | 05_product_insights.py:34 | the `isin` filter keeps no more rows than it is given |
| Products.KeepProductsMembers | 05_product_insights.py:34 | `isin` keeps exactly the rows whose product is listed; a missing product is never listed |
| Products.KeepProductsSum | 05_product_insights.py:34-36 | filtering changes no total that only counts listed products |
| Products.KeepProductsKeys | 05_product_insights.py:34-35 | the filtered rows' (month, product) keys are the keys whose product is listed |
| Products.TrendsFacts | 05_product_insights.py:33-38 | trend keys are strictly ascending by month then product (so each pair once), are exactly the dated pairs of top products, each holds its month-and-product revenue, and a top product's months together hold all its dated revenue |
| Products.ProductSales | 05_product_insights.py:22-27 | revenue per product, highest first; specified by RankedFacts with the product key |
| Products.TopProducts | 05_product_insights.py:32 | the five leading product names; specified by TopProductsFacts and TopProductsLead |
| Products.Trends | 05_product_insights.py:33-38 | the month×product revenue of the top products; specified by TrendsFacts |
| Products.TrendKey | 05_product_insights.py:20-35 | the (`month`, `PRODUCT_NAME`) group key of a row, missing when either part is; specified by TrendsFacts and KeepProductsKeys |

## Left out

- Reading and writing parquet, the `os.path.exists` and `FileNotFoundError` checks, `os.makedirs`, and every `print`: these are I/O. The change counts and the flagged count are returned instead of printed.
- All matplotlib plotting, including the loop over `trends.groupby("PRODUCT_NAME")`, which only draws.
- `product_sales.head(10)` is only printed, so it is not modelled. The top-5 prefix that feeds the trends is modelled.
- Timestamp parsing by `pd.to_datetime` is the parameter `parse: string -> Option<int>`. It returns UTC seconds, or None for an unparseable value. Time zones and formats belong to that function. pandas 2 infers one format per call from the first present value, so the cells of a column are not parsed independently and the two columns may end up with different formats. The model parses every cell of both columns with the same per-cell `parse`.
- The analyses' own `to_datetime`/`to_numeric` calls are treated as already applied. An `Orders.Order` holds the purchase instant and the price after coercion, with None where coercion failed.
- `USD_PRICE` in the churn script is assumed numeric. That script sums it without `to_numeric`, and pandas would concatenate a text column instead of adding it.
- Prices are integer cents, not floating point. This makes the totals and conservation lemmas exact.
- `astype("string")` on non-text cells (numbers, instants) is not modelled. Its text formatting is library behaviour.
- Cleaning.Frame.NormalizeTextColumns: requires every listed column that is present to hold text. The source would first convert any other column to text with `astype("string")`, which is not modelled.
- Whitespace and case are ASCII only:
  - whitespace is the characters Python's `str.isspace` accepts below 128;
  - lowercasing maps only `A`–`Z`.
  Unicode whitespace and case folding are not modelled.
- Cleaning.Frame.CoerceAndFlag: where the script stops it leaves the table unchanged and returns None. With `SHIP_TS` missing the script would already have overwritten `PURCHASE_TS` before the `KeyError`; with exactly one boolean timestamp column it would already have written `PURCHASE_TS`, `SHIP_TS_dt` and `SHIP_TS_DATE` before the `TypeError` at line 56. That table is never saved, so the partial write is not modelled.
- `sort_values("purchase_date")` after the daily group-by is not a separate step. `Sales.DailyFacts` proves the groups are already strictly ascending, so the sort leaves them as they are.
- The order among equal totals in the descending sorts is not stated. pandas' default sort is unstable. `Grouping.SortDesc` picks one order, but no contract depends on it.
- Orders.MonthOf: the calendar arithmetic is only checked at the epoch and around a leap day, through the month examples. Three things are not proved: that it always yields a month of 1 to 12, that it is monotone in the instant, and that it takes exactly one value per calendar month. The ascending (month, product) order stated by `Products.TrendsFacts` matches pandas' order by month-start timestamp only under the last two.

## Findings

No discrepancy between the code and what it evidently intends was found. Two properties that a reader might doubt are proved:
- The `fillna("<NA>")` comparison of the change count cannot hide a change. The text `"<NA>"` normalizes to `"<na>"`, which is not a null token (`Cleaning.FillNaIsFaithful`).
- The snapshot is the global maximum purchase instant, so recency is never negative (`Churn.RfmRowFacts`).
