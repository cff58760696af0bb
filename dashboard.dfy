/**
 * The dashboard script around `DataAnalyzer`: the approval-date filter the
 * date picker drives, the per-customer deduplication of the geolocation
 * table, and the run that hands the filtered table to one analyzer and
 * calls its five analyses in order.
 */
module Dashboard {
  import opened Wrappers
  import opened Orders
  import opened Tallies
  import opened Analyzer

  // ------------------------------------------------------ date filter

  /** Instant (day, second) is not after instant (day', second'). */
  predicate NotAfter(day: int, second: int, day': int, second': int)
  {
    day < day' || (day == day' && second <= second')
  }

  /**
   * The filter as the script writes it: the picked dates become midnight
   * timestamps, and the approval timestamp is compared with both.
   */
  predicate InPickedRangeAsWritten(row: Row, startDay: int, endDay: int)
  {
    && row.approvedAt.Some?
    && NotAfter(startDay, 0, row.approvedAt.value.day, row.approvedAt.value.second)
    && NotAfter(row.approvedAt.value.day, row.approvedAt.value.second, endDay, 0)
  }

  function FilterByApprovalAsWritten(rows: seq<Row>, startDay: int, endDay: int): seq<Row>
  {
    Filter(rows, (row: Row) => InPickedRangeAsWritten(row, startDay, endDay))
  }

  /** The range the date picker offers: approval on any day from the start day to the end day. */
  predicate InPickedRange(row: Row, startDay: int, endDay: int)
  {
    row.approvedAt.Some? && startDay <= row.approvedAt.value.day <= endDay
  }

  function FilterByApproval(rows: seq<Row>, startDay: int, endDay: int): seq<Row>
  {
    Filter(rows, (row: Row) => InPickedRange(row, startDay, endDay))
  }

  /**
   * The written comparison agrees with the day range except on the end day,
   * where it keeps only rows approved exactly at midnight.
   */
  lemma AsWrittenDropsEndDay(row: Row, startDay: int, endDay: int)
    ensures InPickedRangeAsWritten(row, startDay, endDay) <==>
      InPickedRange(row, startDay, endDay) &&
      (row.approvedAt.value.day < endDay || row.approvedAt.value.second == 0)
  {
  }

  /**
   * An order approved at noon on the last picked day is missing from the
   * table as written and present in the day-range table; with the default
   * range, ending on the day of the latest approval, this drops that latest
   * order itself.
   */
  lemma AsWrittenLosesLastDay()
    ensures
      var row := Row("o1", "c1", "p1", "delivered", "SP", 1000, Some(5), Some(Timestamp(10, 43200, 0)));
      && FilterByApprovalAsWritten([row], 3, 10) == []
      && FilterByApproval([row], 3, 10) == [row]
  {
    var row := Row("o1", "c1", "p1", "delivered", "SP", 1000, Some(5), Some(Timestamp(10, 43200, 0)));
    assert [row][1..] == [];
  }

  /**
   * The day-range filter keeps exactly the rows approved on a day from
   * `startDay` to `endDay`, both included, in table order; none of them lacks
   * an approval timestamp, and an inverted range keeps nothing.
   */
  lemma FilterByApprovalSpec(rows: seq<Row>, more: seq<Row>, startDay: int, endDay: int)
    ensures forall r :: r in FilterByApproval(rows, startDay, endDay) ==>
      r in rows && r.approvedAt.Some? && startDay <= r.approvedAt.value.day <= endDay
    ensures forall r :: r in rows && r.approvedAt.Some? && startDay <= r.approvedAt.value.day <= endDay ==>
      r in FilterByApproval(rows, startDay, endDay)
    ensures FilterByApproval(rows + more, startDay, endDay) ==
      FilterByApproval(rows, startDay, endDay) + FilterByApproval(more, startDay, endDay)
    ensures Approved(FilterByApproval(rows, startDay, endDay)) == FilterByApproval(rows, startDay, endDay)
    ensures endDay < startDay ==> FilterByApproval(rows, startDay, endDay) == []
  {
    var keep := (row: Row) => InPickedRange(row, startDay, endDay);
    var kept := Filter(rows, keep);
    FilterConcat(rows, more, keep);
    forall r | r in kept
      ensures r.approvedAt.Some?
    {
      var k :| 0 <= k < |kept| && kept[k] == r;
    }
    ApprovedSpec(kept, []);
    assert forall k :: 0 <= k < |kept| ==> kept[k] in kept;
  }

  /**
   * The filter as written keeps exactly the approved rows from midnight of
   * the start day up to midnight of the end day, in table order, and none
   * of them lacks an approval timestamp.
   */
  lemma FilterByApprovalAsWrittenSpec(rows: seq<Row>, more: seq<Row>, startDay: int, endDay: int)
    ensures forall r :: r in FilterByApprovalAsWritten(rows, startDay, endDay) ==>
      r in rows && r.approvedAt.Some? && startDay <= r.approvedAt.value.day &&
      (r.approvedAt.value.day < endDay || (r.approvedAt.value.day == endDay && r.approvedAt.value.second == 0))
    ensures forall r :: r in rows && InPickedRangeAsWritten(r, startDay, endDay) ==>
      r in FilterByApprovalAsWritten(rows, startDay, endDay)
    ensures FilterByApprovalAsWritten(rows + more, startDay, endDay) ==
      FilterByApprovalAsWritten(rows, startDay, endDay) + FilterByApprovalAsWritten(more, startDay, endDay)
    ensures Approved(FilterByApprovalAsWritten(rows, startDay, endDay)) == FilterByApprovalAsWritten(rows, startDay, endDay)
  {
    var keep := (row: Row) => InPickedRangeAsWritten(row, startDay, endDay);
    var kept := Filter(rows, keep);
    FilterConcat(rows, more, keep);
    forall r | r in kept
      ensures r.approvedAt.Some?
    {
      var k :| 0 <= k < |kept| && kept[k] == r;
    }
    ApprovedSpec(kept, []);
    assert forall k :: 0 <= k < |kept| ==> kept[k] in kept;
  }

  /**
   * The two filters pick the same rows, in the same order, whenever no row
   * was approved on the end day after midnight.
   */
  lemma FiltersAgreeWithoutLateEndDayRows(rows: seq<Row>, startDay: int, endDay: int)
    requires forall r :: r in rows && r.approvedAt.Some? && r.approvedAt.value.day == endDay ==>
      r.approvedAt.value.second == 0
    ensures FilterByApprovalAsWritten(rows, startDay, endDay) == FilterByApproval(rows, startDay, endDay)
  {
    var written := (row: Row) => InPickedRangeAsWritten(row, startDay, endDay);
    var intended := (row: Row) => InPickedRange(row, startDay, endDay);
    forall r | r in rows
      ensures written(r) == intended(r)
    {
      AsWrittenDropsEndDay(r, startDay, endDay);
    }
    FilterAgrees(rows, written, intended);
  }

  // ---------------------------------------------- geolocation dedup

  /** A row of the customer geolocation table; coordinates in millionths of a degree. */
  datatype GeoRow = GeoRow(customerUniqueId: string, lng: int, lat: int, state: string)

  /** The customers the table mentions. */
  function IdsOf(rows: seq<GeoRow>): (ids: set<string>)
    ensures forall j :: 0 <= j < |rows| ==> rows[j].customerUniqueId in ids
  {
    if rows == [] then {}
    else IdsOf(rows[..|rows| - 1]) + {rows[|rows| - 1].customerUniqueId}
  }

  /** The position of the first row for customer `id`. */
  function FirstWithId(rows: seq<GeoRow>, id: string): (k: nat)
    requires id in IdsOf(rows)
    ensures k < |rows| && rows[k].customerUniqueId == id
    ensures forall j :: 0 <= j < k ==> rows[j].customerUniqueId != id
  {
    var init := rows[..|rows| - 1];
    if id in IdsOf(init) then
      var k := FirstWithId(init, id);
      assert forall j :: 0 <= j <= k ==> rows[j] == init[j];
      k
    else
      |rows| - 1
  }

  /**
   * `drop_duplicates(subset='customer_unique_id')`: keeps a row only when no
   * earlier row has its customer, so every customer keeps exactly one row.
   */
  function DropDuplicates(rows: seq<GeoRow>): (r: seq<GeoRow>)
    ensures IdsOf(r) == IdsOf(rows)
    ensures |r| == |IdsOf(rows)|
  {
    if rows == [] then []
    else
      var init, last := rows[..|rows| - 1], rows[|rows| - 1];
      var kept := DropDuplicates(init);
      if last.customerUniqueId in IdsOf(init) then kept
      else
        var r := kept + [last];
        assert r[..|r| - 1] == kept;
        r
  }

  /** One more row either adds nothing or appends that row, when its customer is new. */
  lemma DropDuplicatesStep(rows: seq<GeoRow>)
    requires rows != []
    ensures var init := rows[..|rows| - 1];
      var kept, r := DropDuplicates(init), DropDuplicates(rows);
      && |kept| <= |r| <= |kept| + 1
      && (forall i :: 0 <= i < |kept| ==> r[i] == kept[i])
      && (|r| == |kept| + 1 ==> r[|kept|] == rows[|rows| - 1] && rows[|rows| - 1].customerUniqueId !in IdsOf(init))
  {
  }

  /** The row kept for each customer is that customer's first row. */
  lemma {:induction false} DropDuplicatesKeepsFirstRows(rows: seq<GeoRow>)
    ensures forall i :: 0 <= i < |DropDuplicates(rows)| ==>
      DropDuplicates(rows)[i] == rows[FirstWithId(rows, DropDuplicates(rows)[i].customerUniqueId)]
  {
    if rows != [] {
      var init := rows[..|rows| - 1];
      var kept, r := DropDuplicates(init), DropDuplicates(rows);
      DropDuplicatesKeepsFirstRows(init);
      DropDuplicatesStep(rows);
      forall i | 0 <= i < |r|
        ensures r[i] == rows[FirstWithId(rows, r[i].customerUniqueId)]
      {
        if i < |kept| {
          var id := kept[i].customerUniqueId;
          assert id in IdsOf(init);
          var k := FirstWithId(init, id);
          assert FirstWithId(rows, id) == k;
          assert rows[k] == init[k];
        } else {
          assert FirstWithId(rows, r[i].customerUniqueId) == |rows| - 1;
        }
      }
    }
  }

  /** The kept rows are in table order. */
  lemma {:induction false} DropDuplicatesKeepsOrder(rows: seq<GeoRow>)
    ensures forall i, j :: 0 <= i < j < |DropDuplicates(rows)| ==>
      FirstWithId(rows, DropDuplicates(rows)[i].customerUniqueId) <
      FirstWithId(rows, DropDuplicates(rows)[j].customerUniqueId)
  {
    if rows != [] {
      var init := rows[..|rows| - 1];
      var kept, r := DropDuplicates(init), DropDuplicates(rows);
      DropDuplicatesKeepsOrder(init);
      DropDuplicatesStep(rows);
      forall i | 0 <= i < |kept|
        ensures r[i].customerUniqueId in IdsOf(init)
        ensures FirstWithId(rows, r[i].customerUniqueId) == FirstWithId(init, r[i].customerUniqueId)
      {
        assert kept[i].customerUniqueId in IdsOf(kept);
      }
      if |r| == |kept| + 1 {
        assert FirstWithId(rows, r[|kept|].customerUniqueId) == |rows| - 1;
      }
    }
  }

  /** The deduplicated table never repeats a customer. */
  lemma DropDuplicatesOnePerCustomer(rows: seq<GeoRow>)
    ensures forall i, j :: 0 <= i < j < |DropDuplicates(rows)| ==>
      DropDuplicates(rows)[i].customerUniqueId != DropDuplicates(rows)[j].customerUniqueId
  {
    var r := DropDuplicates(rows);
    DropDuplicatesKeepsOrder(rows);
    forall i, j | 0 <= i < j < |r|
      ensures r[i].customerUniqueId != r[j].customerUniqueId
    {
      assert FirstWithId(rows, r[i].customerUniqueId) < FirstWithId(rows, r[j].customerUniqueId);
    }
  }

  // ---------------------------------------------------------- the run

  datatype Report = Report(
    monthly: seq<MonthlyBucket>,
    daily: seq<DailyBucket>,
    reviewScores: Result<Distribution<int>, AnalysisError>,
    states: Result<Distribution<string>, AnalysisError>,
    statuses: Result<Distribution<string>, AnalysisError>)

  /**
   * Builds one analyzer on `table` and calls the five analyses in the
   * script's order. The monthly analysis goes first and shrinks the
   * analyzer's table to its approved rows, so the four later analyses see
   * only those.
   */
  method AnalyzeTable(table: seq<Row>) returns (report: Report)
    ensures var a := Approved(table);
      report == Report(MonthlySales(table), DailyOrders(table), ReviewScores(a),
                       StateDistribution(a), StatusDistribution(a))
  {
    var analyzer := new DataAnalyzer(table);
    var monthly := analyzer.GenerateMonthlySales();
    var daily := analyzer.GenerateDailyOrders();
    var reviewScores := analyzer.ReviewScoresAnalysis();
    var states := analyzer.StateCustomerDistribution();
    var statuses := analyzer.OrderStatusDistribution();
    DailyIgnoresDroppedRows(table);
    MonthlyIgnoresDroppedRows(table);
    report := Report(monthly, daily, reviewScores, states, statuses);
  }

  /**
   * The script's run: the date filter as written, then the analyses. The
   * filter keeps only approved rows, so every analysis sees the filtered
   * table.
   */
  method RunDashboard(allData: seq<Row>, startDay: int, endDay: int) returns (report: Report)
    ensures
      var shown := FilterByApprovalAsWritten(allData, startDay, endDay);
      report == Report(MonthlySales(shown), DailyOrders(shown), ReviewScores(shown),
                       StateDistribution(shown), StatusDistribution(shown))
  {
    var filtered := FilterByApprovalAsWritten(allData, startDay, endDay);
    FilterByApprovalAsWrittenSpec(allData, [], startDay, endDay);
    report := AnalyzeTable(filtered);
  }

  /** The run with the inclusive day-range filter the date picker intends. */
  method RunDashboardCorrected(allData: seq<Row>, startDay: int, endDay: int) returns (report: Report)
    ensures
      var shown := FilterByApproval(allData, startDay, endDay);
      report == Report(MonthlySales(shown), DailyOrders(shown), ReviewScores(shown),
                       StateDistribution(shown), StatusDistribution(shown))
  {
    var filtered := FilterByApproval(allData, startDay, endDay);
    FilterByApprovalSpec(allData, [], startDay, endDay);
    report := AnalyzeTable(filtered);
  }

  /**
   * On an analyzer given rows that lack approval timestamps, calling the
   * monthly analysis first changes what the later analyses see: the status
   * count of a non-empty table becomes an empty-input error.
   */
  lemma MonthlyFirstHidesUnapprovedRows(rows: seq<Row>)
    requires rows != [] && NoneApproved(rows)
    ensures StatusDistribution(rows).Success?
    ensures StatusDistribution(Approved(rows)).Failure?
  {
    StatusDistributionSpec(rows);
    var a := Approved(rows);
    assert forall k :: 0 <= k < |a| ==> a[k] in a;
    StatusDistributionSpec(a);
  }
}
