/**
 * The five analyses of `DataAnalyzer` over an order table, and the class
 * itself, whose monthly analysis drops the rows without an approval
 * timestamp from the table it holds.
 */
module Analyzer {
  import opened Wrappers
  import opened Orders
  import opened Tallies
  import Lex

  /** One row of the daily table: `order_approved_at`, `order_count`, `revenue`. */
  datatype DailyBucket = DailyBucket(day: int, orderCount: nat, revenue: int)

  /**
   * One row of the monthly table: the month, `total_revenue`, and the top
   * product with its row count (`product_id`, `order_count`), absent when
   * the month has no rows.
   */
  datatype MonthlyBucket = MonthlyBucket(month: int, totalRevenue: int, topProduct: Option<Tally<string>>)

  // ---------------------------------------------------------------- daily

  function DailyBuckets(rows: seq<Row>, lo: int, n: nat): (r: seq<DailyBucket>)
    ensures |r| == n
    ensures forall i :: 0 <= i < n ==> r[i].day == lo + i
  {
    seq(n, i requires 0 <= i < n =>
      DailyBucket(lo + i, |OrderIds(rows, Daily, lo + i)|, Revenue(rows, Daily, lo + i)))
  }

  /**
   * `resample(rule='D')` with `nunique` order ids and summed payments: one
   * bucket for every day from the first to the last approval day, empty
   * days included.
   */
  function DailyOrders(rows: seq<Row>): seq<DailyBucket>
  {
    var bins := Bins(rows, Daily);
    if bins == [] then [] else DailyBuckets(rows, Min(bins), Max(bins) - Min(bins) + 1)
  }

  /**
   * The daily table is empty exactly when no row has an approval timestamp;
   * otherwise it runs day by day, without gaps, from the first approval day
   * to the last, and every approval day lies in it.
   */
  lemma DailyOrdersRange(rows: seq<Row>)
    ensures DailyOrders(rows) == [] <==> NoneApproved(rows)
    ensures var r := DailyOrders(rows);
      forall i :: 0 <= i < |r| ==> r[i].day == r[0].day + i
    ensures var r := DailyOrders(rows);
      r != [] ==> exists i :: 0 <= i < |rows| && InBin(rows[i], Daily, r[0].day)
    ensures var r := DailyOrders(rows);
      r != [] ==> exists i :: 0 <= i < |rows| && InBin(rows[i], Daily, r[|r| - 1].day)
    ensures var r := DailyOrders(rows);
      r != [] ==> forall row :: row in rows && row.approvedAt.Some? ==>
        r[0].day <= row.approvedAt.value.day <= r[|r| - 1].day
  {
    var bins := Bins(rows, Daily);
    if bins == [] {
      NoneApprovedWithoutBins(rows, Daily);
    } else {
      BinsBound(rows, Daily, Min(bins), Max(bins));
    }
  }

  /** Each day's bucket holds that day's distinct order count and its revenue. */
  lemma DailyOrdersBuckets(rows: seq<Row>)
    ensures var r := DailyOrders(rows);
      forall i :: 0 <= i < |r| ==>
        r[i].orderCount == |OrderIds(rows, Daily, r[i].day)| && r[i].revenue == Revenue(rows, Daily, r[i].day)
  {
    forall i | 0 <= i < |DailyOrders(rows)|
      ensures DailyOrders(rows)[i] ==
        DailyBucket(DailyOrders(rows)[i].day, |OrderIds(rows, Daily, DailyOrders(rows)[i].day)|,
                    Revenue(rows, Daily, DailyOrders(rows)[i].day))
    {
      DailyOrdersAt(rows, i);
    }
  }

  lemma DailyOrdersAt(rows: seq<Row>, i: nat)
    requires i < |DailyOrders(rows)|
    ensures var b := DailyOrders(rows)[i];
      b == DailyBucket(b.day, |OrderIds(rows, Daily, b.day)|, Revenue(rows, Daily, b.day))
  {
    var bins := Bins(rows, Daily);
    var lo, n := Min(bins), Max(bins) - Min(bins) + 1;
    var r := DailyBuckets(rows, lo, n);
    assert DailyOrders(rows) == r;
    assert r[i].day == lo + i;
    DailyBucketAt(rows, lo, n, i);
  }


  function DailyRevenueSum(bs: seq<DailyBucket>): int
  {
    if bs == [] then 0 else DailyRevenueSum(bs[..|bs| - 1]) + bs[|bs| - 1].revenue
  }

  function DailyOrderCountSum(bs: seq<DailyBucket>): nat
  {
    if bs == [] then 0 else DailyOrderCountSum(bs[..|bs| - 1]) + bs[|bs| - 1].orderCount
  }

  lemma {:induction false} DailyRevenueSums(rows: seq<Row>, lo: int, bs: seq<DailyBucket>)
    requires forall i :: 0 <= i < |bs| ==> bs[i].day == lo + i
    requires forall i :: 0 <= i < |bs| ==> bs[i].revenue == Revenue(rows, Daily, bs[i].day)
    ensures DailyRevenueSum(bs) == RevenueBetween(rows, Daily, lo, |bs|)
  {
    if bs != [] {
      var init := bs[..|bs| - 1];
      assert forall i :: 0 <= i < |init| ==> init[i] == bs[i];
      DailyRevenueSums(rows, lo, init);
      assert bs[|bs| - 1].day == lo + |init|;
    }
  }

  /** The order counts of the daily buckets of `n` consecutive days add up to their per-day counts. */
  lemma {:induction false} DailyOrderCountSums(rows: seq<Row>, lo: int, n: nat)
    ensures DailyOrderCountSum(DailyBuckets(rows, lo, n)) == OrderCountBetween(rows, Daily, lo, n)
  {
    if n > 0 {
      var bs := DailyBuckets(rows, lo, n);
      assert bs[..n - 1] == DailyBuckets(rows, lo, n - 1);
      DailyOrderCountSums(rows, lo, n - 1);
      DailyBucketAt(rows, lo, n, n - 1);
      assert DailyOrderCountSum(bs) == DailyOrderCountSum(bs[..n - 1]) + bs[n - 1].orderCount;
    }
  }

  /** Daily revenue adds up to the payments of all rows with an approval timestamp. */
  lemma DailyRevenueConserved(rows: seq<Row>)
    ensures DailyRevenueSum(DailyOrders(rows)) == ApprovedTotal(rows)
  {
    var r := DailyOrders(rows);
    DailyOrdersRange(rows);
    DailyOrdersBuckets(rows);
    if r == [] {
      NoApprovedRowsNoRevenue(rows);
    } else {
      DailyRevenueSums(rows, r[0].day, r);
      RevenueConserved(rows, Daily, r[0].day, |r|);
    }
  }

  lemma {:induction false} NoApprovedRowsNoRevenue(rows: seq<Row>)
    requires NoneApproved(rows)
    ensures ApprovedTotal(rows) == 0
  {
    if rows != [] {
      assert rows[0] in rows;
      NoApprovedRowsNoRevenue(rows[1..]);
    }
  }

  /**
   * When the rows of an order share its approval day, the daily order counts
   * add up to the number of distinct approved orders, however many rows
   * each order has.
   */
  lemma DailyOrderCountConserved(rows: seq<Row>)
    requires OneBinPerOrder(rows, Daily)
    ensures DailyOrderCountSum(DailyOrders(rows)) == |ApprovedOrderIds(rows)|
  {
    var r := DailyOrders(rows);
    DailyOrdersRange(rows);
    if r == [] {
      forall i | 0 <= i < |rows|
        ensures rows[i].approvedAt.None?
      {
        assert rows[i] in rows;
      }
      assert ApprovedOrderIds(rows) == {};
    } else {
      var bins := Bins(rows, Daily);
      var lo, n := Min(bins), Max(bins) - Min(bins) + 1;
      assert r == DailyBuckets(rows, lo, n);
      DailyOrderCountSums(rows, lo, n);
      assert r[n - 1].day == lo + n - 1;
      assert forall row :: row in rows && row.approvedAt.Some? ==>
        lo <= Bin(row.approvedAt.value, Daily) < lo + n;
      OrderCountConserved(rows, Daily, lo, n);
    }
  }

  // -------------------------------------------------------------- monthly

  /** The `product_id` of every row approved in month `m`, in table order. */
  function ProductsIn(rows: seq<Row>, m: int): seq<string>
  {
    if rows == [] then []
    else (if InBin(rows[0], Monthly, m) then [rows[0].productId] else []) + ProductsIn(rows[1..], m)
  }

  /** The products of month `m` are exactly those of the rows approved in that month. */
  lemma {:induction false} ProductsInSpec(rows: seq<Row>, m: int)
    ensures forall q :: q in ProductsIn(rows, m) ==>
      exists i :: 0 <= i < |rows| && InBin(rows[i], Monthly, m) && rows[i].productId == q
    ensures forall i :: 0 <= i < |rows| && InBin(rows[i], Monthly, m) ==> rows[i].productId in ProductsIn(rows, m)
  {
    if rows != [] {
      var rest := ProductsIn(rows[1..], m);
      ProductsInSpec(rows[1..], m);
      forall i | 1 <= i < |rows| && InBin(rows[i], Monthly, m)
        ensures rows[i].productId in rest
      {
        assert rows[1..][i - 1] == rows[i];
      }
      forall q | q in rest
        ensures exists i :: 0 <= i < |rows| && InBin(rows[i], Monthly, m) && rows[i].productId == q
      {
        var i :| 0 <= i < |rows[1..]| && InBin(rows[1..][i], Monthly, m) && rows[1..][i].productId == q;
        assert rows[i + 1] == rows[1..][i];
      }
    }
  }


  lemma {:induction false} ApprovedKeepsProducts(rows: seq<Row>, m: int)
    ensures ProductsIn(Approved(rows), m) == ProductsIn(rows, m)
  {
    if rows != [] {
      ApprovedKeepsProducts(rows[1..], m);
      var rest := Approved(rows[1..]);
      if rows[0].approvedAt.Some? {
        assert Approved(rows) == [rows[0]] + rest;
        assert ([rows[0]] + rest)[1..] == rest;
      } else {
        assert Approved(rows) == rest;
      }
    }
  }

  /**
   * `groupby([month, product_id]).size()` for one month, given that month's
   * product column: the products in ascending order, each with its number
   * of rows.
   */
  function GroupSizes(ps: seq<string>): seq<Tally<string>>
  {
    var keys := Lex.SortedUnique(ps);
    seq(|keys|, i requires 0 <= i < |keys| => Tally(keys[i], Count(ps, keys[i])))
  }

  /** `idxmax` over the month's group: the first product with the most rows. */
  function TopProduct(rows: seq<Row>, m: int): Option<Tally<string>>
  {
    var ts := GroupSizes(ProductsIn(rows, m));
    if ts == [] then None else Some(ts[FirstArgMax(ts)])
  }

  /**
   * A month has a top product exactly when it has rows; the top product has
   * the most rows of any product that month (rows, not distinct orders), and
   * among products with as many rows it is the smallest id.
   */
  lemma TopProductSpec(rows: seq<Row>, m: int)
    ensures TopProduct(rows, m).None? <==> ProductsIn(rows, m) == []
    ensures TopProduct(rows, m).Some? ==>
      var top := TopProduct(rows, m).value;
      var ps := ProductsIn(rows, m);
      && top.value in ps
      && top.count == Count(ps, top.value)
      && (forall q :: q in ps ==> Count(ps, q) <= top.count)
      && (forall q :: q in ps && Count(ps, q) == top.count ==> q == top.value || Lex.Less(top.value, q))
  {
    var ps := ProductsIn(rows, m);
    var keys := Lex.SortedUnique(ps);
    Lex.SortedUniqueSpec(ps);
    var ts := GroupSizes(ps);
    if ps != [] {
      assert ps[0] in keys;
      var i := FirstArgMax(ts);
      FirstArgMaxSpec(ts);
      forall q | q in ps
        ensures Count(ps, q) <= ts[i].count
        ensures Count(ps, q) == ts[i].count ==> q == ts[i].value || Lex.Less(ts[i].value, q)
      {
        var j :| 0 <= j < |keys| && keys[j] == q;
        assert ts[j].count == Count(ps, q);
      }
    }
  }

  function MonthlyBuckets(rows: seq<Row>, lo: int, n: nat): (r: seq<MonthlyBucket>)
    ensures |r| == n
    ensures forall i :: 0 <= i < n ==> r[i].month == lo + i
  {
    seq(n, i requires 0 <= i < n =>
      MonthlyBucket(lo + i, Revenue(rows, Monthly, lo + i), TopProduct(rows, lo + i)))
  }


  /**
   * The monthly summary: `resample(rule='M')` revenue for every month from
   * the first to the last approval month, left-joined with each month's top
   * product, in ascending month order.
   */
  function MonthlySales(rows: seq<Row>): seq<MonthlyBucket>
  {
    var bins := Bins(rows, Monthly);
    if bins == [] then [] else MonthlyBuckets(rows, Min(bins), Max(bins) - Min(bins) + 1)
  }

  /**
   * The summary is empty exactly when no row has an approval timestamp;
   * otherwise it runs month by month, without gaps, from the first approval
   * month to the last, and every approval month lies in it.
   */
  lemma MonthlySalesRange(rows: seq<Row>)
    ensures MonthlySales(rows) == [] <==> NoneApproved(rows)
    ensures var r := MonthlySales(rows);
      forall i :: 0 <= i < |r| ==> r[i].month == r[0].month + i
    ensures var r := MonthlySales(rows);
      r != [] ==> exists i :: 0 <= i < |rows| && InBin(rows[i], Monthly, r[0].month)
    ensures var r := MonthlySales(rows);
      r != [] ==> exists i :: 0 <= i < |rows| && InBin(rows[i], Monthly, r[|r| - 1].month)
    ensures var r := MonthlySales(rows);
      r != [] ==> forall row :: row in rows && row.approvedAt.Some? ==>
        r[0].month <= row.approvedAt.value.month <= r[|r| - 1].month
  {
    var bins := Bins(rows, Monthly);
    if bins == [] {
      NoneApprovedWithoutBins(rows, Monthly);
    } else {
      BinsBound(rows, Monthly, Min(bins), Max(bins));
    }
  }

  /** Each month's row holds that month's revenue and its best-selling product. */
  lemma MonthlySalesBuckets(rows: seq<Row>)
    ensures var r := MonthlySales(rows);
      forall i :: 0 <= i < |r| ==> r[i].totalRevenue == Revenue(rows, Monthly, r[i].month)
    ensures var r := MonthlySales(rows);
      forall i :: 0 <= i < |r| ==> r[i].topProduct == TopProduct(rows, r[i].month)
  {
    forall i | 0 <= i < |MonthlySales(rows)|
      ensures MonthlySales(rows)[i] ==
        MonthlyBucket(MonthlySales(rows)[i].month, Revenue(rows, Monthly, MonthlySales(rows)[i].month),
                      TopProduct(rows, MonthlySales(rows)[i].month))
    {
      MonthlySalesAt(rows, i);
    }
  }

  lemma MonthlySalesAt(rows: seq<Row>, i: nat)
    requires i < |MonthlySales(rows)|
    ensures var b := MonthlySales(rows)[i];
      b == MonthlyBucket(b.month, Revenue(rows, Monthly, b.month), TopProduct(rows, b.month))
  {
    var bins := Bins(rows, Monthly);
    var lo, n := Min(bins), Max(bins) - Min(bins) + 1;
    var r := MonthlyBuckets(rows, lo, n);
    assert MonthlySales(rows) == r;
    assert r[i].month == lo + i;
    MonthlyBucketAt(rows, lo, n, i);
  }

  lemma DailyBucketAt(rows: seq<Row>, lo: int, n: nat, i: nat)
    requires i < n
    ensures DailyBuckets(rows, lo, n)[i] ==
      DailyBucket(lo + i, |OrderIds(rows, Daily, lo + i)|, Revenue(rows, Daily, lo + i))
  {
  }

  lemma MonthlyBucketAt(rows: seq<Row>, lo: int, n: nat, i: nat)
    requires i < n
    ensures MonthlyBuckets(rows, lo, n)[i] ==
      MonthlyBucket(lo + i, Revenue(rows, Monthly, lo + i), TopProduct(rows, lo + i))
  {
  }



  /**
   * The summary is sorted by (year, month), holds each month once, and every
   * month between the first and the last has its row; a month's product
   * fields are absent exactly when no row was approved in it.
   */
  lemma MonthlySalesOrder(rows: seq<Row>)
    ensures forall i, j :: 0 <= i < j < |MonthlySales(rows)| ==>
      var a, b := MonthlySales(rows)[i].month, MonthlySales(rows)[j].month;
      Year(a) < Year(b) || (Year(a) == Year(b) && MonthOfYear(a) < MonthOfYear(b))
    ensures forall i :: 0 <= i < |MonthlySales(rows)| ==>
      (MonthlySales(rows)[i].topProduct.None? <==> ProductsIn(rows, MonthlySales(rows)[i].month) == [])
  {
    var r := MonthlySales(rows);
    MonthlySalesRange(rows);
    MonthlySalesBuckets(rows);
    forall i, j | 0 <= i < j < |r|
      ensures Year(r[i].month) < Year(r[j].month) ||
        (Year(r[i].month) == Year(r[j].month) && MonthOfYear(r[i].month) < MonthOfYear(r[j].month))
    {
      MonthKeyOrder(r[i].month, r[j].month);
    }
    forall i | 0 <= i < |r|
      ensures r[i].topProduct.None? <==> ProductsIn(rows, r[i].month) == []
    {
      TopProductSpec(rows, r[i].month);
    }
  }

  function MonthlyRevenueSum(bs: seq<MonthlyBucket>): int
  {
    if bs == [] then 0 else MonthlyRevenueSum(bs[..|bs| - 1]) + bs[|bs| - 1].totalRevenue
  }

  lemma {:induction false} MonthlyBucketSum(rows: seq<Row>, lo: int, bs: seq<MonthlyBucket>)
    requires forall i :: 0 <= i < |bs| ==> bs[i].month == lo + i
    requires forall i :: 0 <= i < |bs| ==> bs[i].totalRevenue == Revenue(rows, Monthly, bs[i].month)
    ensures MonthlyRevenueSum(bs) == RevenueBetween(rows, Monthly, lo, |bs|)
  {
    if bs != [] {
      MonthlyBucketSum(rows, lo, bs[..|bs| - 1]);
    }
  }

  /** Monthly `total_revenue` adds up to the payments of all rows with an approval timestamp. */
  lemma MonthlyRevenueConserved(rows: seq<Row>)
    ensures MonthlyRevenueSum(MonthlySales(rows)) == ApprovedTotal(rows)
  {
    var r := MonthlySales(rows);
    MonthlySalesRange(rows);
    MonthlySalesBuckets(rows);
    if r == [] {
      NoApprovedRowsNoRevenue(rows);
    } else {
      MonthlyBucketSum(rows, r[0].month, r);
      assert r[|r| - 1].month == r[0].month + |r| - 1;
      assert forall row :: row in rows && row.approvedAt.Some? ==>
        r[0].month <= Bin(row.approvedAt.value, Monthly) < r[0].month + |r|;
      RevenueConserved(rows, Monthly, r[0].month, |r|);
    }
  }

  /**
   * Resampling skips rows without an approval timestamp, so the `dropna` that
   * `generate_monthly_sales_df` applies does not change the daily table ...
   */
  lemma DailyIgnoresDroppedRows(rows: seq<Row>)
    ensures DailyOrders(Approved(rows)) == DailyOrders(rows)
  {
    var a := Approved(rows);
    ApprovedKeepsBinStats(rows, Daily, 0);
    var bins := Bins(rows, Daily);
    if bins != [] {
      var lo, hi := Min(bins), Max(bins);
      var n := hi - lo + 1;
      DailyBucketsIgnoreDroppedRows(rows, lo, n);
      assert DailyOrders(rows) == DailyBuckets(rows, lo, n);
      assert DailyOrders(a) == DailyBuckets(a, lo, n);
    } else {
      assert DailyOrders(rows) == [];
      assert DailyOrders(a) == [];
    }
  }

  lemma DailyBucketsIgnoreDroppedRows(rows: seq<Row>, lo: int, n: nat)
    ensures DailyBuckets(Approved(rows), lo, n) == DailyBuckets(rows, lo, n)
  {
    forall i | 0 <= i < n
      ensures DailyBuckets(Approved(rows), lo, n)[i] == DailyBuckets(rows, lo, n)[i]
    {
      DailyBucketIgnoresDroppedRows(rows, lo, n, i);
    }
  }

  lemma DailyBucketIgnoresDroppedRows(rows: seq<Row>, lo: int, n: nat, i: nat)
    requires i < n
    ensures DailyBuckets(Approved(rows), lo, n)[i] == DailyBuckets(rows, lo, n)[i]
  {
    ApprovedKeepsBinStats(rows, Daily, lo + i);
    DailyBucketAt(rows, lo, n, i);
    DailyBucketAt(Approved(rows), lo, n, i);
  }

  /** ... nor the monthly table it computes right after. */
  lemma MonthlyBucketsIgnoreDroppedRows(rows: seq<Row>, lo: int, n: nat)
    ensures MonthlyBuckets(Approved(rows), lo, n) == MonthlyBuckets(rows, lo, n)
  {
    forall i | 0 <= i < n
      ensures MonthlyBuckets(Approved(rows), lo, n)[i] == MonthlyBuckets(rows, lo, n)[i]
    {
      MonthlyBucketIgnoresDroppedRows(rows, lo, n, i);
    }
  }

  lemma MonthlyBucketIgnoresDroppedRows(rows: seq<Row>, lo: int, n: nat, i: nat)
    requires i < n
    ensures MonthlyBuckets(Approved(rows), lo, n)[i] == MonthlyBuckets(rows, lo, n)[i]
  {
    ApprovedKeepsBinStats(rows, Monthly, lo + i);
    ApprovedKeepsProducts(rows, lo + i);
    MonthlyBucketAt(rows, lo, n, i);
    MonthlyBucketAt(Approved(rows), lo, n, i);
  }



  lemma MonthlyIgnoresDroppedRows(rows: seq<Row>)
    ensures MonthlySales(Approved(rows)) == MonthlySales(rows)
  {
    var a := Approved(rows);
    ApprovedKeepsBinStats(rows, Monthly, 0);
    var bins := Bins(rows, Monthly);
    assert Bins(a, Monthly) == bins;
    if bins != [] {
      var lo, hi := Min(bins), Max(bins);
      var n := hi - lo + 1;
      MonthlyBucketsIgnoreDroppedRows(rows, lo, n);
      assert MonthlySales(rows) == MonthlyBuckets(rows, lo, n);
      assert MonthlySales(a) == MonthlyBuckets(a, lo, n);
    } else {
      assert MonthlySales(rows) == [];
      assert MonthlySales(a) == [];
    }
  }


  // ------------------------------------------------- value distributions

  /** The `review_score` column. */
  function ReviewColumn(rows: seq<Row>): seq<Option<int>>
  {
    if rows == [] then [] else [rows[0].reviewScore] + ReviewColumn(rows[1..])
  }

  /** The review scores that are present: `value_counts` drops the missing ones. */
  function PresentScores(rows: seq<Row>): (r: seq<int>)
    ensures forall v :: Count(r, v) == Count(ReviewColumn(rows), Some(v))
  {
    if rows == [] then []
    else
      var rest := PresentScores(rows[1..]);
      match rows[0].reviewScore
      case None => rest
      case Some(s) => [s] + rest
  }

  /** `review_scores_analysis`: score counts, largest first, and the most frequent score. */
  function ReviewScores(rows: seq<Row>): Result<Distribution<int>, AnalysisError>
  {
    MostFrequent(PresentScores(rows))
  }

  /**
   * The analysis fails exactly when no row has a score, and otherwise
   * reports the score that heads the table, one that no other score
   * outnumbers.
   */
  lemma ReviewScoresSpec(rows: seq<Row>)
    ensures ReviewScores(rows).Failure? <==> forall v :: Count(ReviewColumn(rows), Some(v)) == 0
    ensures ReviewScores(rows).Success? ==>
      var d := ReviewScores(rows).value;
      && d.mostFrequent == d.counts[0].value
      && Count(ReviewColumn(rows), Some(d.mostFrequent)) > 0
      && forall v :: Count(ReviewColumn(rows), Some(v)) <= Count(ReviewColumn(rows), Some(d.mostFrequent))
  {
    var scores := PresentScores(rows);
    MostFrequentSpec(scores);
    if scores == [] {
      forall v
        ensures Count(ReviewColumn(rows), Some(v)) == 0
      {
        assert Count(scores, v) == 0;
      }
    } else {
      CountPositive(scores, scores[0]);
      var d := ReviewScores(rows).value;
      CountPositive(scores, d.mostFrequent);
      forall v
        ensures Count(ReviewColumn(rows), Some(v)) <= Count(ReviewColumn(rows), Some(d.mostFrequent))
      {
        CountPositive(scores, v);
      }
    }
  }

  /**
   * The score table is sorted by count, largest first, names each score
   * once, and holds exactly the present scores with their numbers of rows.
   */
  lemma ReviewScoresTable(rows: seq<Row>)
    requires ReviewScores(rows).Success?
    ensures NonIncreasing(ReviewScores(rows).value.counts)
    ensures DistinctValues(ReviewScores(rows).value.counts)
    ensures forall t :: t in ReviewScores(rows).value.counts ==>
      t.count == Count(ReviewColumn(rows), Some(t.value)) > 0
    ensures forall v :: Count(ReviewColumn(rows), Some(v)) > 0 ==>
      Tally(v, Count(ReviewColumn(rows), Some(v))) in ReviewScores(rows).value.counts
  {
    var scores := PresentScores(rows);
    var d := ReviewScores(rows).value;
    MostFrequentSpec(scores);
    ValueCountsSorted(scores);
    ValueCountsEntries(scores);
    forall t | t in d.counts
      ensures t.count == Count(ReviewColumn(rows), Some(t.value)) > 0
    {
      CountPositive(scores, t.value);
    }
    forall v | Count(ReviewColumn(rows), Some(v)) > 0
      ensures Tally(v, Count(ReviewColumn(rows), Some(v))) in d.counts
    {
      CountPositive(scores, v);
    }
  }

  /** The `order_status` column. */
  function StatusColumn(rows: seq<Row>): seq<string>
  {
    seq(|rows|, i requires 0 <= i < |rows| => rows[i].status)
  }

  /** `order_status_distribution`: status counts, largest first, and the most common status. */
  function StatusDistribution(rows: seq<Row>): Result<Distribution<string>, AnalysisError>
  {
    MostFrequent(StatusColumn(rows))
  }

  /**
   * Each status is counted by rows; the analysis fails exactly on an empty
   * table, and otherwise reports a status that no other status outnumbers.
   */
  lemma StatusDistributionSpec(rows: seq<Row>)
    ensures StatusDistribution(rows).Failure? <==> rows == []
    ensures StatusDistribution(rows).Success? ==>
      var d := StatusDistribution(rows).value;
      && d.mostFrequent == d.counts[0].value
      && d.mostFrequent in StatusColumn(rows)
      && forall i :: 0 <= i < |rows| ==>
           Count(StatusColumn(rows), rows[i].status) <= Count(StatusColumn(rows), d.mostFrequent)
  {
    var col := StatusColumn(rows);
    MostFrequentSpec(col);
    assert rows != [] ==> col[0] in col;
    forall i | 0 <= i < |rows|
      ensures rows[i].status in col
    {
      assert col[i] == rows[i].status;
    }
  }

  /**
   * The status table is sorted by count, largest first, names each status
   * once, and holds every status of the table with its number of rows.
   */
  lemma StatusDistributionTable(rows: seq<Row>)
    requires StatusDistribution(rows).Success?
    ensures NonIncreasing(StatusDistribution(rows).value.counts)
    ensures DistinctValues(StatusDistribution(rows).value.counts)
    ensures forall t :: t in StatusDistribution(rows).value.counts ==>
      t.value in StatusColumn(rows) && t.count == Count(StatusColumn(rows), t.value)
    ensures forall i :: 0 <= i < |rows| ==>
      Tally(rows[i].status, Count(StatusColumn(rows), rows[i].status)) in StatusDistribution(rows).value.counts
  {
    var col := StatusColumn(rows);
    MostFrequentSpec(col);
    ValueCountsSorted(col);
    ValueCountsEntries(col);
    forall i | 0 <= i < |rows|
      ensures rows[i].status in col
    {
      assert col[i] == rows[i].status;
    }
  }


  // ------------------------------------------------- state distribution

  /** The `customer_state` column. */
  function StateColumn(rows: seq<Row>): seq<string>
  {
    seq(|rows|, i requires 0 <= i < |rows| => rows[i].state)
  }

  /** The distinct `customer_id`s of the rows in state `s`. */
  function CustomersIn(rows: seq<Row>, s: string): set<string>
  {
    set i | 0 <= i < |rows| && rows[i].state == s :: rows[i].customerId
  }

  /** `groupby("customer_state").customer_id.nunique()`: states ascending, with their customer counts. */
  function StateTallies(rows: seq<Row>): seq<Tally<string>>
  {
    var states := Lex.SortedUnique(StateColumn(rows));
    seq(|states|, i requires 0 <= i < |states| => Tally(states[i], |CustomersIn(rows, states[i])|))
  }

  /**
   * `state_customer_distribution`: the most common state is picked by
   * `idxmax` on the group-by table, before that table is sorted by count.
   */
  function StateDistribution(rows: seq<Row>): Result<Distribution<string>, AnalysisError>
  {
    var ts := StateTallies(rows);
    if ts == [] then Failure(EmptyInput)
    else Success(Distribution(SortByCountDesc(ts), ts[FirstArgMax(ts)].value))
  }

  /**
   * The state table holds each state once with its number of distinct
   * customers, sorted by that number, largest first; it fails exactly on an
   * empty table.
   */
  lemma StateTableSpec(rows: seq<Row>)
    ensures StateDistribution(rows).Failure? <==> rows == []
    ensures StateDistribution(rows).Success? ==>
      var d := StateDistribution(rows).value;
      && NonIncreasing(d.counts)
      && DistinctValues(d.counts)
      && multiset(d.counts) == multiset(StateTallies(rows))
  {
    var col := StateColumn(rows);
    var states := Lex.SortedUnique(col);
    Lex.SortedUniqueSpec(col);
    var ts := StateTallies(rows);
    if rows != [] {
      assert col[0] in states;
      assert DistinctValues(ts) by {
        forall i, j | 0 <= i < j < |ts|
          ensures ts[i].value != ts[j].value
        {
          Lex.LessIrreflexive(states[i]);
        }
      }
      SortKeepsValuesDistinct(ts);
      SortByCountDescSpec(ts);
    }
  }

  /** Each entry of the state table is a state of the table with its number of distinct customers. */
  lemma StateTableEntries(rows: seq<Row>)
    requires StateDistribution(rows).Success?
    ensures forall t :: t in StateDistribution(rows).value.counts ==>
      t.value in StateColumn(rows) && t.count == |CustomersIn(rows, t.value)|
  {
    var d := StateDistribution(rows).value;
    StateTableSpec(rows);
    Lex.SortedUniqueSpec(StateColumn(rows));
    forall t | t in d.counts
      ensures t in StateTallies(rows)
    {
      assert t in multiset(d.counts);
    }
  }

  /** Every state of the table has its entry, with its number of distinct customers. */
  lemma StateTableCoversStates(rows: seq<Row>)
    requires StateDistribution(rows).Success?
    ensures forall i :: 0 <= i < |rows| ==>
      Tally(rows[i].state, |CustomersIn(rows, rows[i].state)|) in StateDistribution(rows).value.counts
  {
    var col := StateColumn(rows);
    var states := Lex.SortedUnique(col);
    Lex.SortedUniqueSpec(col);
    var ts := StateTallies(rows);
    var d := StateDistribution(rows).value;
    StateTableSpec(rows);
    forall i | 0 <= i < |rows|
      ensures Tally(rows[i].state, |CustomersIn(rows, rows[i].state)|) in d.counts
    {
      assert col[i] in states;
      var j :| 0 <= j < |states| && states[j] == rows[i].state;
      assert ts[j] in multiset(d.counts);
    }
  }



  /**
   * The most common state has at least as many distinct customers as any
   * other state, and among states with as many it is the first in
   * lexicographic order.
   */
  lemma MostCommonStateSpec(rows: seq<Row>)
    requires StateDistribution(rows).Success?
    ensures
      var top := StateDistribution(rows).value.mostFrequent;
      && top in StateColumn(rows)
      && forall i :: 0 <= i < |rows| ==>
           && |CustomersIn(rows, rows[i].state)| <= |CustomersIn(rows, top)|
           && (|CustomersIn(rows, rows[i].state)| == |CustomersIn(rows, top)| ==>
                 rows[i].state == top || Lex.Less(top, rows[i].state))
  {
    var col := StateColumn(rows);
    var states := Lex.SortedUnique(col);
    Lex.SortedUniqueSpec(col);
    var ts := StateTallies(rows);
    var k := FirstArgMax(ts);
    FirstArgMaxSpec(ts);
    assert ts[k].value == states[k];
    forall i | 0 <= i < |rows|
      ensures |CustomersIn(rows, rows[i].state)| <= ts[k].count
      ensures |CustomersIn(rows, rows[i].state)| == ts[k].count ==>
        rows[i].state == states[k] || Lex.Less(states[k], rows[i].state)
    {
      assert col[i] in states;
      var j :| 0 <= j < |states| && states[j] == rows[i].state;
      assert ts[j].count == |CustomersIn(rows, rows[i].state)|;
    }
  }

  // ------------------------------------------------------------ the class

  /**
   * Holds the order table the analyses read. Only the monthly analysis
   * changes it: it keeps the rows that have an approval timestamp.
   */
  class DataAnalyzer {
    var df: seq<Row>

    constructor (df: seq<Row>)
      ensures this.df == df
    {
      this.df := df;
    }

    method GenerateDailyOrders() returns (daily: seq<DailyBucket>)
      ensures daily == DailyOrders(df)
    {
      daily := DailyOrders(df);
    }

    method GenerateMonthlySales() returns (monthly: seq<MonthlyBucket>)
      modifies this
      ensures df == Approved(old(df))
      ensures monthly == MonthlySales(df)
    {
      df := Approved(df);
      monthly := MonthlySales(df);
    }

    method ReviewScoresAnalysis() returns (result: Result<Distribution<int>, AnalysisError>)
      ensures result == ReviewScores(df)
    {
      result := ReviewScores(df);
    }

    method StateCustomerDistribution() returns (result: Result<Distribution<string>, AnalysisError>)
      ensures result == StateDistribution(df)
    {
      result := StateDistribution(df);
    }

    method OrderStatusDistribution() returns (result: Result<Distribution<string>, AnalysisError>)
      ensures result == StatusDistribution(df)
    {
      result := StatusDistribution(df);
    }
  }
}
