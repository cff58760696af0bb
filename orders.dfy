/**
 * The order table the dashboard analyses: one row per order item or payment
 * line, so several rows can share an order id. Payments are integers in
 * minor currency units. A timestamp is reduced to what the analyses look at:
 * its day, its second within the day and its calendar month.
 */
module Orders {
  import opened Wrappers

  /**
   * `day` numbers calendar days consecutively, `second` is the time of day,
   * `month` numbers calendar months consecutively (year * 12 + month - 1)
   * and is the month containing `day`.
   */
  datatype Timestamp = Timestamp(day: int, second: nat, month: int)

  datatype Row = Row(
    orderId: string,
    customerId: string,
    productId: string,
    status: string,
    state: string,
    payment: int,
    reviewScore: Option<int>,
    approvedAt: Option<Timestamp>)

  /** The width of a resampling bin: `rule='D'` or `rule='M'`. */
  datatype Period = Daily | Monthly

  function Bin(t: Timestamp, p: Period): int
  {
    match p
    case Daily => t.day
    case Monthly => t.month
  }

  function Year(month: int): int { month / 12 }

  function MonthOfYear(month: int): int { month % 12 + 1 }

  /** Ordering months by their key is ordering them by (year, month of the year). */
  lemma MonthKeyOrder(m1: int, m2: int)
    ensures 1 <= MonthOfYear(m1) <= 12
    ensures m1 < m2 <==>
      Year(m1) < Year(m2) || (Year(m1) == Year(m2) && MonthOfYear(m1) < MonthOfYear(m2))
  {
    assert m1 == 12 * Year(m1) + MonthOfYear(m1) - 1;
    assert m2 == 12 * Year(m2) + MonthOfYear(m2) - 1;
  }

  predicate HasApproval(r: Row) { r.approvedAt.Some? }

  predicate NoneApproved(rows: seq<Row>)
  {
    forall row :: row in rows ==> row.approvedAt.None?
  }

  /** Rows whose approval timestamp falls into bin `k`; NaT rows fall into no bin. */
  predicate InBin(r: Row, p: Period, k: int)
  {
    r.approvedAt.Some? && Bin(r.approvedAt.value, p) == k
  }

  /** Boolean-mask selection: the rows that satisfy `keep`, in table order. */
  function Filter<T>(xs: seq<T>, keep: T -> bool): (r: seq<T>)
    ensures |r| <= |xs|
    ensures forall k :: 0 <= k < |r| ==> r[k] in xs && keep(r[k])
    ensures forall x :: x in xs && keep(x) ==> x in r
  {
    if xs == [] then []
    else (if keep(xs[0]) then [xs[0]] else []) + Filter(xs[1..], keep)
  }

  /** Selection preserves order: filtering a concatenation filters each part. */
  lemma {:induction false} FilterConcat<T>(a: seq<T>, b: seq<T>, keep: T -> bool)
    ensures Filter(a + b, keep) == Filter(a, keep) + Filter(b, keep)
  {
    if a == [] {
      assert a + b == b;
    } else {
      assert (a + b)[1..] == a[1..] + b;
      FilterConcat(a[1..], b, keep);
    }
  }

  /** A selection that every row passes returns the table unchanged. */
  lemma {:induction false} FilterKeepsAll<T>(xs: seq<T>, keep: T -> bool)
    requires forall x :: x in xs ==> keep(x)
    ensures Filter(xs, keep) == xs
  {
    if xs != [] {
      FilterKeepsAll(xs[1..], keep);
    }
  }

  lemma FilterIdempotent<T>(xs: seq<T>, keep: T -> bool)
    ensures Filter(Filter(xs, keep), keep) == Filter(xs, keep)
  {
    FilterKeepsAll(Filter(xs, keep), keep);
  }

  /** `dropna(subset=['order_approved_at'])`. */
  function Approved(rows: seq<Row>): seq<Row>
  {
    Filter(rows, HasApproval)
  }

  /** After `dropna`, exactly the rows with an approval timestamp remain, in table order. */
  lemma ApprovedSpec(rows: seq<Row>, more: seq<Row>)
    ensures forall r :: r in Approved(rows) ==> r in rows && r.approvedAt.Some?
    ensures forall r :: r in rows && r.approvedAt.Some? ==> r in Approved(rows)
    ensures Approved(rows + more) == Approved(rows) + Approved(more)
    ensures Approved(Approved(rows)) == Approved(rows)
    ensures (forall r :: r in rows ==> r.approvedAt.Some?) ==> Approved(rows) == rows
  {
    FilterConcat(rows, more, HasApproval);
    FilterIdempotent(rows, HasApproval);
    if forall r :: r in rows ==> r.approvedAt.Some? {
      FilterKeepsAll(rows, HasApproval);
    }
  }

  /** The bin of every row that has an approval timestamp, in table order. */
  function Bins(rows: seq<Row>, p: Period): seq<int>
  {
    if rows == [] then []
    else (if rows[0].approvedAt.Some? then [Bin(rows[0].approvedAt.value, p)] else []) + Bins(rows[1..], p)
  }

  lemma {:induction false} BinsMembership(rows: seq<Row>, p: Period, k: int)
    ensures k in Bins(rows, p) <==> exists i :: 0 <= i < |rows| && InBin(rows[i], p, k)
  {
    if rows != [] {
      BinsMembership(rows[1..], p, k);
      if exists i :: 0 <= i < |rows[1..]| && InBin(rows[1..][i], p, k) {
        var i :| 0 <= i < |rows[1..]| && InBin(rows[1..][i], p, k);
        assert InBin(rows[i + 1], p, k);
      }
      if exists i :: 0 <= i < |rows| && InBin(rows[i], p, k) {
        var i :| 0 <= i < |rows| && InBin(rows[i], p, k);
        if i > 0 {
          assert InBin(rows[1..][i - 1], p, k);
        }
      }
    }
  }

  /** No bins means no row has an approval timestamp. */
  lemma NoneApprovedWithoutBins(rows: seq<Row>, p: Period)
    requires Bins(rows, p) == []
    ensures NoneApproved(rows)
  {
    forall row | row in rows
      ensures row.approvedAt.None?
    {
      var i :| 0 <= i < |rows| && rows[i] == row;
      if row.approvedAt.Some? {
        BinsMembership(rows, p, Bin(row.approvedAt.value, p));
      }
    }
  }

  /** The smallest and largest bins enclose every approved row and hold one each. */
  lemma BinsBound(rows: seq<Row>, p: Period, lo: int, hi: int)
    requires Bins(rows, p) != [] && lo == Min(Bins(rows, p)) && hi == Max(Bins(rows, p))
    ensures !NoneApproved(rows)
    ensures forall row :: row in rows && row.approvedAt.Some? ==> lo <= Bin(row.approvedAt.value, p) <= hi
    ensures exists i :: 0 <= i < |rows| && InBin(rows[i], p, lo)
    ensures exists i :: 0 <= i < |rows| && InBin(rows[i], p, hi)
  {
    forall row | row in rows && row.approvedAt.Some?
      ensures lo <= Bin(row.approvedAt.value, p) <= hi
    {
      var i :| 0 <= i < |rows| && rows[i] == row;
      BinsMembership(rows, p, Bin(row.approvedAt.value, p));
    }
    BinsMembership(rows, p, lo);
    BinsMembership(rows, p, hi);
    var i :| 0 <= i < |rows| && InBin(rows[i], p, lo);
    assert rows[i] in rows;
  }

  function Min(s: seq<int>): (m: int)
    requires s != []
    ensures m in s && forall k :: k in s ==> m <= k
  {
    if |s| == 1 then s[0]
    else
      var m := Min(s[1..]);
      assert s == [s[0]] + s[1..];
      if s[0] <= m then s[0] else m
  }

  function Max(s: seq<int>): (m: int)
    requires s != []
    ensures m in s && forall k :: k in s ==> k <= m
  {
    if |s| == 1 then s[0]
    else
      var m := Max(s[1..]);
      assert s == [s[0]] + s[1..];
      if s[0] >= m then s[0] else m
  }

  /** Sum of `payment_value` over the rows in bin `k`. */
  function Revenue(rows: seq<Row>, p: Period, k: int): int
  {
    if rows == [] then 0
    else (if InBin(rows[0], p, k) then rows[0].payment else 0) + Revenue(rows[1..], p, k)
  }

  /** Sum of `payment_value` over the rows that have an approval timestamp. */
  function ApprovedTotal(rows: seq<Row>): int
  {
    if rows == [] then 0
    else (if rows[0].approvedAt.Some? then rows[0].payment else 0) + ApprovedTotal(rows[1..])
  }

  /** Revenue summed over the `n` consecutive bins starting at `lo`. */
  function RevenueBetween(rows: seq<Row>, p: Period, lo: int, n: nat): int
  {
    if n == 0 then 0 else RevenueBetween(rows, p, lo, n - 1) + Revenue(rows, p, lo + n - 1)
  }

  /** The share of the first row in the bins `lo .. lo + n - 1`. */
  lemma {:induction false} RevenueBetweenHead(rows: seq<Row>, p: Period, lo: int, n: nat)
    requires rows != []
    ensures RevenueBetween(rows, p, lo, n) ==
      RevenueBetween(rows[1..], p, lo, n) +
      (if rows[0].approvedAt.Some? && lo <= Bin(rows[0].approvedAt.value, p) < lo + n
       then rows[0].payment else 0)
  {
    if n > 0 {
      RevenueBetweenHead(rows, p, lo, n - 1);
    }
  }

  lemma {:induction false} RevenueBetweenEmpty(p: Period, lo: int, n: nat)
    ensures RevenueBetween([], p, lo, n) == 0
  {
    if n > 0 {
      RevenueBetweenEmpty(p, lo, n - 1);
    }
  }

  /**
   * Bucketing conserves revenue: when the bins `lo .. lo + n - 1` cover every
   * approved row, their revenues add up to the payment total of those rows.
   */
  lemma {:induction false} RevenueConserved(rows: seq<Row>, p: Period, lo: int, n: nat)
    requires forall r :: r in rows && r.approvedAt.Some? ==> lo <= Bin(r.approvedAt.value, p) < lo + n
    ensures RevenueBetween(rows, p, lo, n) == ApprovedTotal(rows)
  {
    if rows == [] {
      RevenueBetweenEmpty(p, lo, n);
    } else {
      RevenueBetweenHead(rows, p, lo, n);
      RevenueConserved(rows[1..], p, lo, n);
    }
  }

  /** The distinct order ids among the rows in bin `k` (`nunique`). */
  function OrderIds(rows: seq<Row>, p: Period, k: int): set<string>
  {
    if rows == [] then {}
    else (if InBin(rows[0], p, k) then {rows[0].orderId} else {}) + OrderIds(rows[1..], p, k)
  }

  /** The number of rows in bin `k` (`size`). */
  function RowsIn(rows: seq<Row>, p: Period, k: int): nat
  {
    if rows == [] then 0
    else (if InBin(rows[0], p, k) then 1 else 0) + RowsIn(rows[1..], p, k)
  }

  lemma {:induction false} OrderIdsMembership(rows: seq<Row>, p: Period, k: int, id: string)
    ensures id in OrderIds(rows, p, k) <==>
      exists i :: 0 <= i < |rows| && InBin(rows[i], p, k) && rows[i].orderId == id
  {
    if rows != [] {
      OrderIdsMembership(rows[1..], p, k, id);
      if id in OrderIds(rows[1..], p, k) {
        var i :| 0 <= i < |rows[1..]| && InBin(rows[1..][i], p, k) && rows[1..][i].orderId == id;
        assert InBin(rows[i + 1], p, k) && rows[i + 1].orderId == id;
      }
      if exists i :: 0 <= i < |rows| && InBin(rows[i], p, k) && rows[i].orderId == id {
        var i :| 0 <= i < |rows| && InBin(rows[i], p, k) && rows[i].orderId == id;
        if i > 0 {
          assert InBin(rows[1..][i - 1], p, k);
        }
      }
    }
  }

  /** Distinct-count is not row count: a bin never holds more orders than rows. */
  lemma {:induction false} OrderCountAtMostRowCount(rows: seq<Row>, p: Period, k: int)
    ensures |OrderIds(rows, p, k)| <= RowsIn(rows, p, k)
  {
    if rows != [] {
      OrderCountAtMostRowCount(rows[1..], p, k);
    }
  }

  /** Every order's rows lie in one bin (the rows of an order share its approval time). */
  predicate OneBinPerOrder(rows: seq<Row>, p: Period)
  {
    forall i, j ::
      && 0 <= i < |rows| && 0 <= j < |rows|
      && rows[i].orderId == rows[j].orderId
      && rows[i].approvedAt.Some? && rows[j].approvedAt.Some?
      ==> Bin(rows[i].approvedAt.value, p) == Bin(rows[j].approvedAt.value, p)
  }

  /** The distinct order ids among the rows that have an approval timestamp. */
  function ApprovedOrderIds(rows: seq<Row>): set<string>
  {
    set i | 0 <= i < |rows| && rows[i].approvedAt.Some? :: rows[i].orderId
  }

  /** The order ids of the `n` consecutive bins starting at `lo`. */
  function OrderIdsBetween(rows: seq<Row>, p: Period, lo: int, n: nat): set<string>
  {
    if n == 0 then {} else OrderIdsBetween(rows, p, lo, n - 1) + OrderIds(rows, p, lo + n - 1)
  }

  /** The per-bin distinct order counts of the `n` bins starting at `lo`, added up. */
  function OrderCountBetween(rows: seq<Row>, p: Period, lo: int, n: nat): nat
  {
    if n == 0 then 0 else OrderCountBetween(rows, p, lo, n - 1) + |OrderIds(rows, p, lo + n - 1)|
  }

  lemma {:induction false} OrderIdsBetweenMembership(rows: seq<Row>, p: Period, lo: int, n: nat, id: string)
    ensures id in OrderIdsBetween(rows, p, lo, n) <==>
      exists i :: 0 <= i < |rows| && rows[i].approvedAt.Some? && rows[i].orderId == id &&
        lo <= Bin(rows[i].approvedAt.value, p) < lo + n
  {
    if n > 0 {
      OrderIdsBetweenMembership(rows, p, lo, n - 1, id);
      OrderIdsMembership(rows, p, lo + n - 1, id);
    }
  }

  /** An order counted in one of the first `n` bins is not counted again in the next one. */
  lemma OrderNotInLaterBin(rows: seq<Row>, p: Period, lo: int, n: nat, id: string)
    requires OneBinPerOrder(rows, p)
    requires id in OrderIdsBetween(rows, p, lo, n)
    ensures id !in OrderIds(rows, p, lo + n)
  {
    OrderIdsBetweenMembership(rows, p, lo, n, id);
    var i :| 0 <= i < |rows| && rows[i].approvedAt.Some? && rows[i].orderId == id &&
      lo <= Bin(rows[i].approvedAt.value, p) < lo + n;
    forall j | 0 <= j < |rows| && rows[j].orderId == id
      ensures !InBin(rows[j], p, lo + n)
    {
    }
    OrderIdsMembership(rows, p, lo + n, id);
  }

  /** When no order spans two bins, the next bin shares no order with the bins before it. */
  lemma OrdersOfLaterBinAreNew(rows: seq<Row>, p: Period, lo: int, n: nat)
    requires OneBinPerOrder(rows, p)
    ensures OrderIdsBetween(rows, p, lo, n) * OrderIds(rows, p, lo + n) == {}
  {
    forall id | id in OrderIdsBetween(rows, p, lo, n)
      ensures id !in OrderIds(rows, p, lo + n)
    {
      OrderNotInLaterBin(rows, p, lo, n, id);
    }
  }

  /** When no order spans two bins, the per-bin counts add up to the count of the union. */
  lemma {:induction false} OrderCountsAdd(rows: seq<Row>, p: Period, lo: int, n: nat)
    requires forall m :: 0 <= m < n ==> OrderIdsBetween(rows, p, lo, m) * OrderIds(rows, p, lo + m) == {}
    ensures OrderCountBetween(rows, p, lo, n) == |OrderIdsBetween(rows, p, lo, n)|
  {
    if n > 0 {
      OrderCountsAdd(rows, p, lo, n - 1);
      DisjointUnionSize(OrderIdsBetween(rows, p, lo, n - 1), OrderIds(rows, p, lo + n - 1));
    }
  }

  lemma DisjointUnionSize<T>(a: set<T>, b: set<T>)
    requires a * b == {}
    ensures |a + b| == |a| + |b|
  {
  }

  /**
   * Summed over bins that cover every approved row, the per-bin distinct
   * order counts give the number of distinct approved orders, provided no
   * order spans two bins.
   */
  lemma OrderCountConserved(rows: seq<Row>, p: Period, lo: int, n: nat)
    requires OneBinPerOrder(rows, p)
    requires forall r :: r in rows && r.approvedAt.Some? ==> lo <= Bin(r.approvedAt.value, p) < lo + n
    ensures OrderCountBetween(rows, p, lo, n) == |ApprovedOrderIds(rows)|
  {
    forall m | 0 <= m < n
      ensures OrderIdsBetween(rows, p, lo, m) * OrderIds(rows, p, lo + m) == {}
    {
      OrdersOfLaterBinAreNew(rows, p, lo, m);
    }
    OrderCountsAdd(rows, p, lo, n);
    forall id
      ensures id in OrderIdsBetween(rows, p, lo, n) <==> id in ApprovedOrderIds(rows)
    {
      OrderIdsBetweenMembership(rows, p, lo, n, id);
      if id in ApprovedOrderIds(rows) {
        var i :| 0 <= i < |rows| && rows[i].approvedAt.Some? && rows[i].orderId == id;
        assert rows[i] in rows;
      }
    }
    assert OrderIdsBetween(rows, p, lo, n) == ApprovedOrderIds(rows);
  }

  /** Masks that agree on every row of the table select the same rows. */
  lemma {:induction false} FilterAgrees<T>(xs: seq<T>, keep: T -> bool, keep': T -> bool)
    requires forall x :: x in xs ==> keep(x) == keep'(x)
    ensures Filter(xs, keep) == Filter(xs, keep')
  {
    if xs != [] {
      assert forall x :: x in xs[1..] ==> x in xs;
      FilterAgrees(xs[1..], keep, keep');
    }
  }


  /**
   * Bucketing looks only at rows with an approval timestamp: dropping the
   * others first changes no bin, no revenue and no order set.
   */
  lemma {:induction false} ApprovedKeepsBinStats(rows: seq<Row>, p: Period, k: int)
    ensures Bins(Approved(rows), p) == Bins(rows, p)
    ensures Revenue(Approved(rows), p, k) == Revenue(rows, p, k)
    ensures OrderIds(Approved(rows), p, k) == OrderIds(rows, p, k)
  {
    if rows != [] {
      ApprovedKeepsBinStats(rows[1..], p, k);
      var rest := Approved(rows[1..]);
      if rows[0].approvedAt.Some? {
        assert Approved(rows) == [rows[0]] + rest;
        assert ([rows[0]] + rest)[1..] == rest;
      } else {
        assert Approved(rows) == rest;
      }
    }
  }
}
