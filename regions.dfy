/** region_wise_sales of utils/data_processor.py. */
module RegionSales {
  import opened Seqs
  import opened Sorting
  import opened Sales
  import opened Grouping

  /** The per-region dictionary: total sales, transaction count and share of all revenue. */
  datatype RegionStat = RegionStat(totalSales: real, transactionCount: int, percentage: real)

  function SalesOf(row: (string, RegionStat)): real { row.1.totalSales }

  function CountOf(row: (string, RegionStat)): int { row.1.transactionCount }

  function PercentageOf(row: (string, RegionStat)): real { row.1.percentage }

  function RegionOf(row: (string, RegionStat)): string { row.0 }

  /** A region's share of the total revenue in percent, or 0.0 when there is no positive total. */
  function Percentage(sales: real, total: real): real {
    if total > 0.0 then sales / total * 100.0 else 0.0
  }

  /** The statistics region k ends up with. */
  function StatOf(ts: seq<Transaction>, k: string): RegionStat {
    var sales := RealWhere(ts, RegionField, k, Amount);
    RegionStat(sales, CountWhere(ts, RegionField, k), Percentage(sales, Revenue(ts)))
  }

  /** The dictionary before sorting: one row per region, in first-seen order. */
  function RegionTable(ts: seq<Transaction>): (table: seq<(string, RegionStat)>)
    ensures Keys(table) == GroupKeys(ts, RegionField)
    ensures forall m :: 0 <= m < |table| ==> table[m].1 == StatOf(ts, table[m].0)
  {
    var table := Table(ts, RegionField, StatOf);
    assert Keys(table) == GroupKeys(ts, RegionField);
    table
  }

  /** The result: the table sorted by total sales, largest first, ties in first-seen order. */
  function RegionSummary(ts: seq<Transaction>): seq<(string, RegionStat)> {
    SortBy(RegionTable(ts), SalesOf, true)
  }

  /** What region k has accumulated after the records ts, before the percentages are filled in. */
  function RegionSpec(ts: seq<Transaction>, k: string): RegionStat {
    RegionStat(RealWhere(ts, RegionField, k, Amount), CountWhere(ts, RegionField, k), 0.0)
  }

  /** The update of a region's entry by one sale: its total grows by the amount, its count by one. */
  function AddSale(t: Transaction): RegionStat -> RegionStat {
    (s: RegionStat) => s.(totalSales := s.totalSales + Amount(t), transactionCount := s.transactionCount + 1)
  }

  const NewRegion := RegionStat(0.0, 0, 0.0)

  lemma AddSaleStep(stats: seq<(string, RegionStat)>, done: seq<Transaction>, t: Transaction)
    requires Tabulates(stats, done, RegionField, RegionSpec)
    ensures Tabulates(Upsert(stats, t.region, NewRegion, AddSale(t)), done + [t], RegionField, RegionSpec)
  {
    assert KeyOf(t, RegionField) == t.region;
    RealSnoc(done, t, RegionField, t.region, Amount);
    IntSnoc(done, t, RegionField, t.region, One);
    if t.region !in GroupKeys(done, RegionField) {
      AbsentKey(done, RegionField, t.region);
    }
    forall k | k in GroupKeys(done, RegionField) && k != t.region
      ensures RegionSpec(done + [t], k) == RegionSpec(done, k)
    {
      RealSnoc(done, t, RegionField, k, Amount);
      IntSnoc(done, t, RegionField, k, One);
    }
    UpsertStep(stats, done, t, RegionField, RegionSpec, NewRegion, AddSale(t));
  }

  /** The accumulation with every percentage filled in relative to total. */
  function WithPercentages(stats: seq<(string, RegionStat)>, total: real): (r: seq<(string, RegionStat)>)
    ensures |r| == |stats|
  {
    seq(|stats|, m requires 0 <= m < |stats| =>
      (stats[m].0, stats[m].1.(percentage := Percentage(stats[m].1.totalSales, total))))
  }

  lemma AccumulatedTable(stats: seq<(string, RegionStat)>, ts: seq<Transaction>)
    requires Tabulates(stats, ts, RegionField, RegionSpec)
    ensures WithPercentages(stats, Revenue(ts)) == RegionTable(ts)
  {
    assert forall m :: 0 <= m < |stats| ==> stats[m].0 == Keys(stats)[m];
  }

  /** region_wise_sales's first loop: total sales and transaction count per region, in first-seen order. */
  method AggregateRegions(transactions: seq<Transaction>) returns (stats: seq<(string, RegionStat)>)
    ensures Tabulates(stats, transactions, RegionField, RegionSpec)
  {
    stats := [];
    for i := 0 to |transactions|
      invariant Tabulates(stats, transactions[..i], RegionField, RegionSpec)
    {
      var t := transactions[i];
      ghost var before := stats;
      var region, amount := t.region, Amount(t);
      var j := KeyIndex(stats, region);
      if j == |stats| {
        stats := stats + [(region, NewRegion)];
      }
      var s := stats[j].1;
      stats := stats[j := (region, s.(totalSales := s.totalSales + amount,
                                      transactionCount := s.transactionCount + 1))];
      assert stats == Upsert(before, region, NewRegion, AddSale(t));
      AddSaleStep(before, transactions[..i], t);
      assert transactions[..i + 1] == transactions[..i] + [t];
    }
    assert transactions[..|transactions|] == transactions;
  }

  /**
   * region_wise_sales: accumulate total and count per region, fill in the
   * percentages, then sort by total sales in descending order.
   */
  method RegionWiseSales(transactions: seq<Transaction>) returns (result: seq<(string, RegionStat)>)
    ensures result == RegionSummary(transactions)
  {
    var totalRevenue := CalculateTotalRevenue(transactions);
    var stats := AggregateRegions(transactions);
    AccumulatedTable(stats, transactions);
    ghost var accumulated := stats;
    for m := 0 to |stats|
      invariant |stats| == |accumulated|
      invariant forall q :: 0 <= q < m ==> stats[q] == WithPercentages(accumulated, totalRevenue)[q]
      invariant forall q :: m <= q < |stats| ==> stats[q] == accumulated[q]
    {
      var s := stats[m].1;
      if totalRevenue > 0.0 {
        stats := stats[m := (stats[m].0, s.(percentage := s.totalSales / totalRevenue * 100.0))];
      } else {
        stats := stats[m := (stats[m].0, s.(percentage := 0.0))];
      }
    }
    assert stats == WithPercentages(accumulated, totalRevenue);
    result := SortBy(stats, SalesOf, true);
  }

  // ---------------------------------------------------------------------
  // What the result promises
  // ---------------------------------------------------------------------

  /**
   * One row per region that occurs in the input, each once, holding that
   * region's statistics.
   */
  lemma RegionSummaryRows(ts: seq<Transaction>)
    ensures Distinct(Keys(RegionSummary(ts)))
    ensures forall k :: k in Keys(RegionSummary(ts)) <==> exists i :: 0 <= i < |ts| && ts[i].region == k
    ensures forall r :: r in RegionSummary(ts) ==> r.1 == StatOf(ts, r.0)
  {
    var table := RegionTable(ts);
    var result := RegionSummary(ts);
    SortByCorrect(table, SalesOf, true);
    PermutedTable(table, result, ts, RegionField);
    forall r | r in result
      ensures r.1 == StatOf(ts, r.0)
    {
      assert r in multiset(table);
    }
  }

  /** Rows are in non-increasing order of total sales; regions with equal totals keep first-seen order. */
  lemma RegionSummaryOrder(ts: seq<Transaction>)
    ensures forall i, j :: 0 <= i < j < |RegionSummary(ts)| ==>
      RegionSummary(ts)[i].1.totalSales >= RegionSummary(ts)[j].1.totalSales
    ensures forall k :: WithKey(RegionSummary(ts), SalesOf, k) == WithKey(RegionTable(ts), SalesOf, k)
  {
    SortByCorrect(RegionTable(ts), SalesOf, true);
  }

  /** The unsorted table's totals: counts add up to the number of records, sales to the total revenue. */
  lemma RegionTableTotals(ts: seq<Transaction>)
    ensures SumInt(RegionTable(ts), CountOf) == |ts|
    ensures SumReal(RegionTable(ts), SalesOf) == Revenue(ts)
  {
    var table := RegionTable(ts);
    RowsInt(table, CountOf, ts, RegionField, One);
    RowsReal(table, SalesOf, ts, RegionField, Amount);
    IntOverGroupKeys(ts, RegionField, One);
    RealOverGroupKeys(ts, RegionField, Amount);
    CountAll(ts);
  }

  /** The same totals hold for the sorted result, and with no positive revenue every percentage is 0. */
  lemma RegionSummaryTotals(ts: seq<Transaction>)
    ensures SumInt(RegionSummary(ts), CountOf) == |ts|
    ensures SumReal(RegionSummary(ts), SalesOf) == Revenue(ts)
    ensures Revenue(ts) <= 0.0 ==> forall r :: r in RegionSummary(ts) ==> r.1.percentage == 0.0
  {
    var table := RegionTable(ts);
    var result := RegionSummary(ts);
    RegionTableTotals(ts);
    SortByCorrect(table, SalesOf, true);
    SumIntPerm(table, result, CountOf);
    SumRealPerm(table, result, SalesOf);
    RegionSummaryRows(ts);
  }

  /** When the total revenue is positive, the percentages of the result add up to exactly 100. */
  lemma RegionPercentagesSum(ts: seq<Transaction>)
    requires Revenue(ts) > 0.0
    ensures SumReal(RegionSummary(ts), PercentageOf) == 100.0
  {
    TablePercentages(ts);
    SortByCorrect(RegionTable(ts), SalesOf, true);
    SumRealPerm(RegionTable(ts), RegionSummary(ts), PercentageOf);
  }

  /** The same sum over the unsorted table. */
  lemma TablePercentages(ts: seq<Transaction>)
    requires Revenue(ts) > 0.0
    ensures SumReal(RegionTable(ts), PercentageOf) == 100.0
  {
    var table := RegionTable(ts);
    var total := Revenue(ts);
    RegionTableTotals(ts);
    RowShares(ts);
    SumRealScaled(table, PercentageOf, SalesOf, total, 100.0);
    CancelPositive(SumReal(table, PercentageOf), SumReal(table, SalesOf), total);
  }

  /** Row by row, a percentage times the total revenue is the region's sales times 100. */
  lemma RowShares(ts: seq<Transaction>)
    requires Revenue(ts) > 0.0
    ensures forall i :: 0 <= i < |RegionTable(ts)| ==>
      PercentageOf(RegionTable(ts)[i]) * Revenue(ts) == SalesOf(RegionTable(ts)[i]) * 100.0
  {
    var table := RegionTable(ts);
    var total := Revenue(ts);
    forall i | 0 <= i < |table|
      ensures PercentageOf(table[i]) * total == SalesOf(table[i]) * 100.0
    {
      var sales := SalesOf(table[i]);
      assert PercentageOf(table[i]) == Percentage(sales, total);
      ShareTimesTotal(sales, total);
    }
  }

  lemma ShareTimesTotal(sales: real, total: real)
    requires total > 0.0
    ensures Percentage(sales, total) * total == sales * 100.0
  {
  }

  lemma CancelPositive(x: real, sum: real, c: real)
    requires c > 0.0 && sum == c && x * c == sum * 100.0
    ensures x == 100.0
  {
    assert (x - 100.0) * c == 0.0;
  }
}
