# E-commerce dashboard aggregations, modelled in Dafny

This project models the analysis core of a Streamlit dashboard over a
Brazilian e-commerce order table (`dashboard/dashboard.py`):

- the `DataAnalyzer` class and its five analyses:
  - daily order counts and revenue;
  - monthly revenue with each month's top product;
  - the review-score distribution;
  - distinct customers per state;
  - the order-status distribution;
- the approval-date filter applied before the analyses run, both as written (it drops rows approved after midnight on the end day) and as the inclusive filter it evidently intends;
- the de-duplication of the geolocation table by `customer_unique_id`.

Modules:

- `Wrappers`: `Option` and `Result`.
- `Orders`: the order row and its approval timestamp. A timestamp is reduced to its day, its second within the day and its month key `year * 12 + month - 1`. This module also holds:
  - boolean-mask selection (`Filter`) and `dropna` (`Approved`);
  - the resampling bins and per-bin revenue and distinct order ids;
  - the conservation lemmas (summing the bins gives back the totals).
- `Lex`: string order as Python compares strings, which is the key order of `groupby`. It also defines the sorted key list a `groupby` produces.
- `Tallies`: `value_counts`, `sort_values(ascending=False)`, `idxmax`, and the (table, most frequent value) pair that three of the analyses return.
- `Analyzer`: the five analyses as functions, and the `DataAnalyzer` class. Its only field is the table it holds. The monthly analysis replaces that table with its approved rows, as line 27 of the source does.
- `Dashboard`: the date filter (as written and corrected), the geolocation de-duplication, and the top-level flow: filter, build the analyzer, then run the five analyses in the source's order. `RunDashboard` runs that flow with the filter as written. `RunDashboardCorrected` runs it with the inclusive filter the date picker evidently intends.

Behaviour of the source that the model keeps:

- **Empty bins are emitted.** Resampling with `rule='D'` or `rule='M'` fills every day (month) from the first approval to the last. A day without orders appears with count 0 and revenue 0.
- **Empty months keep a row.** After the left join at line 41, a month without rows still has a row, with no top product.
- **No range or column checks.** The source neither validates the picked dates nor checks for missing columns, so the model has no such errors.
- **Empty analyses fail explicitly.** Where `idxmax` on an empty table raises `ValueError`, the model returns `Failure(EmptyInput)`.

## Model

| member | source | states |
|---|---|---|
| Orders.Filter | dashboard/dashboard.py:130-131 | a boolean-mask selection keeps exactly the rows that satisfy the mask, and never grows the table |
| Orders.FilterConcat | dashboard/dashboard.py:130-131 | selecting from two concatenated tables is selecting from each and concatenating, so table order is kept |
| Orders.FilterKeepsAll | dashboard/dashboard.py:130-131 | a mask every row satisfies keeps the table unchanged |
| Orders.FilterIdempotent | dashboard/dashboard.py:130-131 | applying the same mask twice is applying it once |
| Orders.FilterAgrees | dashboard/dashboard.py:130-131 | two masks that agree on every row of the table select the same rows |
| Orders.Approved | dashboard/dashboard.py:27 | `dropna(subset=['order_approved_at'])`; its contract is carried by `Orders.ApprovedSpec` and `Orders.ApprovedKeepsBinStats` |
| Orders.ApprovedSpec | dashboard/dashboard.py:27 | `dropna(subset=['order_approved_at'])` keeps exactly the rows with an approval timestamp, keeps their order, is idempotent, and leaves a fully approved table unchanged |
| Orders.MonthKeyOrder | dashboard/dashboard.py:44-49 | ordering months by their key is ordering by (year, month of year); month of year is 1..12 |
| Orders.Bins | dashboard/dashboard.py:13 | the resampling bins of the approved rows; its contract is carried by `Orders.BinsMembership`, `Orders.NoneApprovedWithoutBins` and `Orders.BinsBound` |
| Orders.BinsMembership | dashboard/dashboard.py:13 | a day (month) has a bin exactly when some row was approved in it |
| Orders.NoneApprovedWithoutBins | dashboard/dashboard.py:13 | no bins means no row has an approval timestamp |
| Orders.BinsBound | dashboard/dashboard.py:13 | the first and last bin are occupied, and every approval falls between them |
| Orders.Min | dashboard/dashboard.py:13 | the earliest bin is one of the bins and no later than any other |
| Orders.Max | dashboard/dashboard.py:13 | the latest bin is one of the bins and no earlier than any other |
| Orders.Revenue | dashboard/dashboard.py:15 | the `payment_value` sum of one bin; its contract is carried by `Orders.RevenueConserved` and `Analyzer.DailyRevenueConserved` |
| Orders.RevenueBetweenHead | dashboard/dashboard.py:15 | the revenue of a run of bins splits into the first row's payment, if it lands in the run, plus the rest |
| Orders.RevenueBetweenEmpty | dashboard/dashboard.py:15 | an empty table has no revenue in any run of bins |
| Orders.RevenueConserved | dashboard/dashboard.py:13-15 | summed over bins that cover every approval, per-bin revenue equals the total payment of the approved rows |
| Orders.OrderIds | dashboard/dashboard.py:14 | the order ids of one bin, whose size is `nunique`; its contract is carried by `Orders.OrderIdsMembership`, `Orders.OrderCountAtMostRowCount` and `Orders.OrderCountConserved` |
| Orders.OrderIdsMembership | dashboard/dashboard.py:14 | an order id is counted in a bin exactly when one of its rows was approved in that bin |
| Orders.OrderCountAtMostRowCount | dashboard/dashboard.py:14 | `nunique` of order ids in a bin is at most the number of rows in it |
| Orders.OrderIdsBetweenMembership | dashboard/dashboard.py:14 | an order id belongs to a run of bins exactly when one of its rows was approved inside the run |
| Orders.OrderNotInLaterBin | dashboard/dashboard.py:14 | when no order spans two bins, an order of earlier bins is not counted again in the next one |
| Orders.OrdersOfLaterBinAreNew | dashboard/dashboard.py:14 | when no order spans two bins, the next bin shares no order with the earlier ones |
| Orders.OrderCountsAdd | dashboard/dashboard.py:14 | for pairwise disjoint bins, the per-bin distinct counts add up to the size of their union |
| Orders.OrderCountConserved | dashboard/dashboard.py:13-14 | when no order spans two bins, the per-bin counts over bins covering every approval add up to the number of distinct approved orders |
| Orders.ApprovedKeepsBinStats | dashboard/dashboard.py:27 | dropping unapproved rows changes no bin, no bin's revenue and no bin's order ids |
| Lex.Less | dashboard/dashboard.py:37 | Python's string comparison, the key order of `groupby`; its contract is carried by `Lex.LessIrreflexive`, `Lex.LessTransitive` and `Lex.LessTotal` |
| Lex.LessIrreflexive | dashboard/dashboard.py:37 | no key sorts before itself |
| Lex.LessTransitive | dashboard/dashboard.py:37 | key order is transitive |
| Lex.LessTotal | dashboard/dashboard.py:37 | any two distinct keys are ordered one way |
| Lex.InsertSpec | dashboard/dashboard.py:60 | inserting a key into a strictly ascending key list keeps it strictly ascending and adds exactly that key |
| Lex.SortedUnique | dashboard/dashboard.py:37 | the group keys of a column; its contract is carried by `Lex.SortedUniqueSpec` |
| Lex.SortedUniqueSpec | dashboard/dashboard.py:37 | the group keys of a column are strictly ascending and are exactly the column's values |
| Tallies.CountPositive | dashboard/dashboard.py:54 | a value occurs a positive number of times exactly when it is in the column |
| Tallies.Distinct | dashboard/dashboard.py:54 | the distinct values of a column are pairwise different and are exactly the column's values |
| Tallies.InsertByCountPermutes | dashboard/dashboard.py:54 | inserting an entry by count adds exactly that entry |
| Tallies.InsertByCountHead | dashboard/dashboard.py:54 | after insertion the head is the new entry or the old head |
| Tallies.InsertByCountSorted | dashboard/dashboard.py:54 | inserting into a table sorted by count, descending, keeps it sorted |
| Tallies.InsertByCountSpec | dashboard/dashboard.py:54 | insertion by count keeps the table sorted and adds exactly one entry |
| Tallies.InsertKeepsValuesDistinct | dashboard/dashboard.py:54 | inserting an entry for a new value keeps one entry per value |
| Tallies.SortByCountDesc | dashboard/dashboard.py:65 | `sort_values(ascending=False)` on a count column; its contract is carried by `Tallies.SortByCountDescSpec` and `Tallies.SortKeepsValuesDistinct` |
| Tallies.SortByCountDescSpec | dashboard/dashboard.py:65 | `sort_values(ascending=False)` gives a permutation of the table whose counts do not increase |
| Tallies.SortKeepsValuesDistinct | dashboard/dashboard.py:65 | sorting keeps one entry per value |
| Tallies.FirstArgMax | dashboard/dashboard.py:55 | `idxmax` of a non-empty table is a valid position |
| Tallies.FirstArgMaxSpec | dashboard/dashboard.py:38 | `idxmax` picks an entry with the largest count, and no earlier entry has as large a count |
| Tallies.ValueCounts | dashboard/dashboard.py:54 | `value_counts().sort_values(ascending=False)`; its contract is carried by `Tallies.ValueCountsSorted` and `Tallies.ValueCountsEntries` |
| Tallies.ValueCountsSorted | dashboard/dashboard.py:54 | `value_counts().sort_values(ascending=False)` has non-increasing counts and one entry per value |
| Tallies.ValueCountsEntries | dashboard/dashboard.py:54 | every entry is a value of the column with its number of occurrences, and every value of the column has its entry |
| Tallies.MostFrequent | dashboard/dashboard.py:70-71 | the (table, `idxmax`) pair of a column; its contract is carried by `Tallies.MostFrequentSpec` |
| Tallies.MostFrequentSpec | dashboard/dashboard.py:70-71 | a table and its most frequent value exist exactly when the column is non-empty; the value heads the table, occurs in the column and occurs at least as often as any other |
| Analyzer.DailyBuckets | dashboard/dashboard.py:13-21 | the daily table over a run of days has one row per day, on consecutive days |
| Analyzer.DailyOrders | dashboard/dashboard.py:13-21 | the daily table; its contract is carried by `Analyzer.DailyOrdersRange`, `Analyzer.DailyOrdersBuckets`, `Analyzer.DailyRevenueConserved`, `Analyzer.DailyOrderCountConserved` and `Analyzer.DailyIgnoresDroppedRows` |
| Analyzer.DailyOrdersRange | dashboard/dashboard.py:13-17 | the daily table is empty exactly when no row is approved; otherwise its days are consecutive, start and end on days with an approval, and cover every approval |
| Analyzer.DailyOrdersBuckets | dashboard/dashboard.py:13-21 | each row of the daily table has `order_count` = distinct orders approved that day and `revenue` = payment total of that day |
| Analyzer.DailyRevenueSums | dashboard/dashboard.py:15 | the revenue column of consecutive daily rows adds up to the revenue of those days |
| Analyzer.DailyOrderCountSums | dashboard/dashboard.py:14 | the `order_count` column over a run of days adds up to the per-day distinct order counts |
| Analyzer.DailyRevenueConserved | dashboard/dashboard.py:13-16 | the daily revenue column adds up to the total payment of the approved rows |
| Analyzer.NoApprovedRowsNoRevenue | dashboard/dashboard.py:13-16 | a table without approvals has no approved revenue |
| Analyzer.DailyOrderCountConserved | dashboard/dashboard.py:13-14 | when every order is approved on one day, the `order_count` column adds up to the number of distinct approved orders |
| Analyzer.ProductsInSpec | dashboard/dashboard.py:37 | a month's product column holds exactly the products of the rows approved that month |
| Analyzer.ApprovedKeepsProducts | dashboard/dashboard.py:37 | dropping unapproved rows leaves every month's product column unchanged |
| Analyzer.GroupSizes | dashboard/dashboard.py:37 | `groupby(...).size()` for one month; its contract is carried by `Analyzer.TopProductSpec` |
| Analyzer.TopProduct | dashboard/dashboard.py:37-38 | the month's `idxmax` row of the group sizes; its contract is carried by `Analyzer.TopProductSpec` |
| Analyzer.TopProductSpec | dashboard/dashboard.py:37-38 | a month has a top product exactly when it has rows; it has the most rows of any product that month, with its row count, and among products with as many rows it has the smallest id |
| Analyzer.MonthlyBuckets | dashboard/dashboard.py:30-41 | the monthly table over a run of months has one row per month, on consecutive months |
| Analyzer.MonthlySales | dashboard/dashboard.py:30-49 | the monthly summary table; its contract is carried by `Analyzer.MonthlySalesRange`, `Analyzer.MonthlySalesBuckets`, `Analyzer.MonthlySalesOrder`, `Analyzer.MonthlyRevenueConserved` and `Analyzer.MonthlyIgnoresDroppedRows` |
| Analyzer.MonthlySalesRange | dashboard/dashboard.py:30-34 | the monthly table is empty exactly when no row is approved; otherwise its months are consecutive, start and end on months with an approval, and cover every approval |
| Analyzer.MonthlySalesBuckets | dashboard/dashboard.py:30-41 | each monthly row has `total_revenue` = that month's payment total and the top product of that month |
| Analyzer.MonthlySalesOrder | dashboard/dashboard.py:41-49 | the monthly rows are in ascending (year, month) order, and a row lacks a top product exactly when its month has no rows |
| Analyzer.MonthlyBucketSum | dashboard/dashboard.py:31-33 | the `total_revenue` column of consecutive monthly rows adds up to the revenue of those months |
| Analyzer.MonthlyRevenueConserved | dashboard/dashboard.py:30-34 | the monthly `total_revenue` column adds up to the total payment of the approved rows |
| Analyzer.DailyIgnoresDroppedRows | dashboard/dashboard.py:12-27 | the daily table of the approved rows equals the daily table of all rows, so running it after the monthly analysis changes nothing |
| Analyzer.DailyBucketsIgnoreDroppedRows | dashboard/dashboard.py:13-21 | the daily rows of any run of days are the same with or without the unapproved rows |
| Analyzer.DailyBucketIgnoresDroppedRows | dashboard/dashboard.py:13-21 | each daily row is the same with or without the unapproved rows |
| Analyzer.MonthlyBucketsIgnoreDroppedRows | dashboard/dashboard.py:27-41 | the monthly rows of any run of months are the same with or without the unapproved rows |
| Analyzer.MonthlyBucketIgnoresDroppedRows | dashboard/dashboard.py:27-41 | each monthly row is the same with or without the unapproved rows |
| Analyzer.MonthlyIgnoresDroppedRows | dashboard/dashboard.py:27-38 | the `dropna` at line 27 does not change the monthly table |
| Analyzer.PresentScores | dashboard/dashboard.py:54 | dropping missing review scores keeps every present score with its multiplicity |
| Analyzer.ReviewScores | dashboard/dashboard.py:53-57 | the review-score analysis; its contract is carried by `Analyzer.ReviewScoresSpec` and `Analyzer.ReviewScoresTable` |
| Analyzer.ReviewScoresSpec | dashboard/dashboard.py:53-57 | the analysis fails exactly when no review score is present; otherwise the most frequent score heads the table, is present, and occurs at least as often as any score |
| Analyzer.ReviewScoresTable | dashboard/dashboard.py:54 | the score table has non-increasing counts, one entry per score, each present score with its count, and no absent score |
| Analyzer.StatusDistribution | dashboard/dashboard.py:69-73 | the order-status analysis; its contract is carried by `Analyzer.StatusDistributionSpec` and `Analyzer.StatusDistributionTable` |
| Analyzer.StatusDistributionSpec | dashboard/dashboard.py:69-73 | the analysis fails exactly when the table is empty; otherwise the most common status heads the table, occurs in the table, and no row's status is more common |
| Analyzer.StatusDistributionTable | dashboard/dashboard.py:70 | the status table has non-increasing counts, one entry per status, and every row's status with its number of rows |
| Analyzer.CustomersIn | dashboard/dashboard.py:60 | the customer ids of one state, whose size is `nunique`; its contract is carried by `Analyzer.StateTableEntries` and `Analyzer.MostCommonStateSpec` |
| Analyzer.StateTallies | dashboard/dashboard.py:60-63 | the per-state table in group-key order; its contract is carried by `Analyzer.StateTableSpec` |
| Analyzer.StateDistribution | dashboard/dashboard.py:59-67 | the state analysis; its contract is carried by `Analyzer.StateTableSpec`, `Analyzer.StateTableEntries`, `Analyzer.StateTableCoversStates` and `Analyzer.MostCommonStateSpec` |
| Analyzer.StateTableSpec | dashboard/dashboard.py:59-65 | the analysis fails exactly when the table is empty; otherwise the state table is a permutation of the per-state groups, sorted by customer count, descending, with one entry per state |
| Analyzer.StateTableEntries | dashboard/dashboard.py:60-63 | every entry is a state of the table with its number of distinct customer ids |
| Analyzer.StateTableCoversStates | dashboard/dashboard.py:60 | every row's state has its entry with its distinct customer count |
| Analyzer.MostCommonStateSpec | dashboard/dashboard.py:64 | the most common state occurs in the table, no state has more distinct customers, and among states with as many it is the first in key order |
| Analyzer.DataAnalyzer.constructor | dashboard/dashboard.py:9-10 | the analyzer holds the table it is given |
| Analyzer.DataAnalyzer.GenerateDailyOrders | dashboard/dashboard.py:12-23 | returns the daily table of the held table and leaves the table unchanged |
| Analyzer.DataAnalyzer.GenerateMonthlySales | dashboard/dashboard.py:25-51 | replaces the held table by its approved rows and returns the monthly table of the result |
| Analyzer.DataAnalyzer.ReviewScoresAnalysis | dashboard/dashboard.py:53-57 | returns the review-score distribution of the held table |
| Analyzer.DataAnalyzer.StateCustomerDistribution | dashboard/dashboard.py:59-67 | returns the per-state customer distribution of the held table |
| Analyzer.DataAnalyzer.OrderStatusDistribution | dashboard/dashboard.py:69-73 | returns the order-status distribution of the held table |
| Dashboard.FilterByApprovalAsWritten | dashboard/dashboard.py:130-131 | the date filter as the script writes it; its contract is carried by `Dashboard.FilterByApprovalAsWrittenSpec` and `Dashboard.AsWrittenDropsEndDay` |
| Dashboard.FilterByApproval | dashboard/dashboard.py:130-131 | the inclusive day-range filter; its contract is carried by `Dashboard.FilterByApprovalSpec` |
| Dashboard.FilterByApprovalAsWrittenSpec | dashboard/dashboard.py:130-131 | the filter as written keeps exactly the approved rows from midnight of the start day to midnight of the end day, in table order, and leaves nothing for `dropna` to remove |
| Dashboard.AsWrittenDropsEndDay | dashboard/dashboard.py:130-131 | the filter as written keeps a row exactly when its day is in the picked range and it was not approved after midnight on the end day |
| Dashboard.AsWrittenLosesLastDay | dashboard/dashboard.py:130-131 | a row approved at noon on the end day is dropped by the filter as written and kept by the corrected one |
| Dashboard.FilterByApprovalSpec | dashboard/dashboard.py:130-131 | the date filter keeps exactly the approved rows whose day lies in the inclusive range, keeps their order, leaves nothing for `dropna` to remove, and keeps nothing when the range is reversed |
| Dashboard.FiltersAgreeWithoutLateEndDayRows | dashboard/dashboard.py:130-131 | when no row was approved after midnight on the end day, the filter as written and the inclusive filter select the same rows |
| Dashboard.IdsOf | dashboard/dashboard.py:106 | every row's customer id is among the table's ids |
| Dashboard.FirstWithId | dashboard/dashboard.py:106 | the first row carrying a customer id carries it, and no earlier row does |
| Dashboard.DropDuplicates | dashboard/dashboard.py:106 | `drop_duplicates(subset='customer_unique_id')` keeps the same set of customer ids, one row for each |
| Dashboard.DropDuplicatesStep | dashboard/dashboard.py:106 | one more input row adds at most that row at the end of the result, and only if its id is new |
| Dashboard.DropDuplicatesKeepsFirstRows | dashboard/dashboard.py:106 | each kept row is the first row of the input with its customer id |
| Dashboard.DropDuplicatesKeepsOrder | dashboard/dashboard.py:106 | kept rows appear in the order of their first occurrences |
| Dashboard.DropDuplicatesOnePerCustomer | dashboard/dashboard.py:106 | no customer id occurs twice in the result |
| Dashboard.AnalyzeTable | dashboard/dashboard.py:133-141 | one analyzer running the five analyses in the script's order gives the monthly and daily tables of the given table, and the review, state and status analyses of its approved rows |
| Dashboard.RunDashboard | dashboard/dashboard.py:129-141 | the script's run, with the date filter as written, gives each analysis of the table that filter selects |
| Dashboard.RunDashboardCorrected | dashboard/dashboard.py:129-141 | the same run with the inclusive day-range filter gives each analysis of the table that filter selects |
| Dashboard.MonthlyFirstHidesUnapprovedRows | dashboard/dashboard.py:137-141 | on a table with rows but no approval, the status analysis succeeds before the monthly analysis runs and fails after it |

## Left out

- The Streamlit layout, the charts, and the month-name reshaping of the monthly table (lines 116-181). They are presentation only.
- `BrazilMapPlotter` (lines 75-88). It fetches an image over the network and plots it.
- Loading the CSV files, parsing the datetime columns and the initial sort by approval time (lines 90-114). The model starts from parsed rows, and every analysis is insensitive to row order except the tie order discussed below.
- Calendar arithmetic. The day ordinal and the month key of a timestamp are given with the row, as a datetime parser would supply them.
- Payments and coordinates are integers (minor currency units), not floating point.
- Missing values other than `review_score` and `order_approved_at`. The model assumes `order_id`, `customer_id`, `product_id`, `order_status`, `customer_state` and `payment_value` are present in every row. pandas skips missing values in `groupby`, `value_counts`, `nunique` and `sum`: for example, a month whose rows all lack `product_id` gets no top product in the source but one in the model.
- A date picker returning only one date (`selected_dates` of length 1 makes line 131 fail). The model takes both dates as parameters.
- Analyzer.DataAnalyzer.GenerateMonthlySales: assumes that the left join at line 41 matches each month-end resample row with the `Period` group of the same month. The source joins datetime keys against `Period` keys, and that pandas behaviour is not modelled.
- The final column selection and `to_datetime` coercion of the monthly table (lines 42-51) are not modelled separately. A month is identified by its key.
- Tallies.ValueCounts: `value_counts` and `sort_values` break ties among equal counts in an implementation-defined order. The model uses first-occurrence order and a stable sort, so the contracts on these tables promise only non-increasing counts, one entry per value, and the right count for each value.
- Analyzer.StateTableSpec: states the sorted table only up to the order of states with equal counts, because `sort_values` with the default algorithm is not stable.
- Analyzer.DailyOrderCountConserved: the daily counts add up to the distinct approved orders only when no order has rows approved on two different days. With such orders the source counts them once per day.

## Findings

| source | as written | input that shows it | evidently intended | confidence | as-written member | corrected member |
|---|---|---|---|---|---|---|
| dashboard/dashboard.py:130-131 | the end of the range is `pd.to_datetime(selected_dates[1])`, midnight at the start of the end day, so rows approved later that day fail `<=` | range from day 3 to day 10 and a row approved at 12:00 on day 10: the filter returns no rows (Dashboard.AsWrittenLosesLastDay) | the picked end date is inclusive, so every row approved on the end day is kept | not executed | Dashboard.FilterByApprovalAsWritten | Dashboard.FilterByApproval |
