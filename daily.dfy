/** daily_sales_trend and find_peak_sales_day of utils/data_processor.py. */
module DailySales {
  import opened Seqs
  import opened Strings
  import opened Sorting
  import opened Sales
  import opened Grouping

  /** A day's dictionary while the loop runs: unique_customers is still a set. */
  datatype DailyAcc = DailyAcc(revenue: real, transactionCount: int, uniqueCustomers: set<string>)

  /** A day's dictionary as returned: unique_customers has become the size of that set. */
  datatype DailyStat = DailyStat(revenue: real, transactionCount: int, uniqueCustomers: int)

  function RevenueOf(row: (string, DailyStat)): real { row.1.revenue }

  function CountOf(row: (string, DailyStat)): int { row.1.transactionCount }

  /** What day k has accumulated after the records ts. */
  function AccSpec(ts: seq<Transaction>, k: string): DailyAcc {
    DailyAcc(RealWhere(ts, DateField, k, Amount), CountWhere(ts, DateField, k),
             ValuesWhere(ts, DateField, k, CustomerField))
  }

  const NewDay := DailyAcc(0.0, 0, {})

  /** The update of a day's entry by one sale. */
  function AddSale(t: Transaction): DailyAcc -> DailyAcc {
    (s: DailyAcc) => s.(revenue := s.revenue + Amount(t), transactionCount := s.transactionCount + 1,
                       uniqueCustomers := s.uniqueCustomers + {t.customerId})
  }

  lemma AddSaleStep(stats: seq<(string, DailyAcc)>, done: seq<Transaction>, t: Transaction)
    requires Tabulates(stats, done, DateField, AccSpec)
    ensures Tabulates(Upsert(stats, t.date, NewDay, AddSale(t)), done + [t], DateField, AccSpec)
  {
    var k := t.date;
    assert KeyOf(t, DateField) == k && KeyOf(t, CustomerField) == t.customerId;
    RealSnoc(done, t, DateField, k, Amount);
    IntSnoc(done, t, DateField, k, One);
    ValuesSnoc(done, t, DateField, k, CustomerField);
    if k !in GroupKeys(done, DateField) {
      AbsentKey(done, DateField, k);
    }
    forall k' | k' in GroupKeys(done, DateField) && k' != k
      ensures AccSpec(done + [t], k') == AccSpec(done, k')
    {
      RealSnoc(done, t, DateField, k', Amount);
      IntSnoc(done, t, DateField, k', One);
      ValuesSnoc(done, t, DateField, k', CustomerField);
    }
    UpsertStep(stats, done, t, DateField, AccSpec, NewDay, AddSale(t));
  }

  /** The second loop's work on one entry: the set of customers replaced by its size. */
  function Finish(a: DailyAcc): DailyStat {
    DailyStat(a.revenue, a.transactionCount, |a.uniqueCustomers|)
  }

  /** What day k ends up with. */
  function DaySpec(ts: seq<Transaction>, k: string): DailyStat {
    Finish(AccSpec(ts, k))
  }

  /** The reference result: one row per date, sorted by the date string. */
  function Trend(ts: seq<Transaction>): seq<(string, DailyStat)> {
    SortText(Table(ts, DateField, DaySpec), RowKey)
  }

  /** daily_sales_trend's first loop: revenue, count and the set of customers per date. */
  method AggregateDays(transactions: seq<Transaction>) returns (daily: seq<(string, DailyAcc)>)
    ensures daily == Table(transactions, DateField, AccSpec)
  {
    daily := [];
    for i := 0 to |transactions|
      invariant Tabulates(daily, transactions[..i], DateField, AccSpec)
    {
      var t := transactions[i];
      ghost var before := daily;
      var date, cid, amount := t.date, t.customerId, Amount(t);
      var j := KeyIndex(daily, date);
      if j == |daily| {
        daily := daily + [(date, NewDay)];
      }
      var s := daily[j].1;
      daily := daily[j := (date, s.(revenue := s.revenue + amount, transactionCount := s.transactionCount + 1,
                                    uniqueCustomers := s.uniqueCustomers + {cid}))];
      assert daily == Upsert(before, date, NewDay, AddSale(t));
      AddSaleStep(before, transactions[..i], t);
      assert transactions[..i + 1] == transactions[..i] + [t];
    }
    assert transactions[..|transactions|] == transactions;
    TabulatesTable(daily, transactions, DateField, AccSpec);
  }

  /**
   * daily_sales_trend: the accumulation, then a loop that replaces each
   * set of customers by its size, then the sort by date string.
   */
  method DailySalesTrend(transactions: seq<Transaction>) returns (trend: seq<(string, DailyStat)>)
    ensures trend == Trend(transactions)
  {
    var daily := AggregateDays(transactions);
    var finished: seq<(string, DailyStat)> := [];
    for m := 0 to |daily|
      invariant |finished| == m
      invariant forall q :: 0 <= q < m ==> finished[q] == (daily[q].0, Finish(daily[q].1))
    {
      var s := daily[m].1;
      finished := finished + [(daily[m].0, DailyStat(s.revenue, s.transactionCount, |s.uniqueCustomers|))];
    }
    assert finished == Table(transactions, DateField, DaySpec);
    trend := SortText(finished, RowKey);
  }

  // ---------------------------------------------------------------------
  // What the trend promises
  // ---------------------------------------------------------------------

  /** One row per date that occurs in the input, each once, holding that date's statistics. */
  lemma TrendRows(ts: seq<Transaction>)
    ensures |Trend(ts)| == |GroupKeys(ts, DateField)|
    ensures forall k :: k in Keys(Trend(ts)) <==> Occurs(ts, DateField, k)
    ensures forall row :: row in Trend(ts) <==> Occurs(ts, DateField, row.0) && row.1 == DaySpec(ts, row.0)
  {
    SortTextCorrect(Table(ts, DateField, DaySpec), RowKey);
    ReorderedTable(Trend(ts), ts, DateField, DaySpec);
  }

  /** The dates are strictly increasing as strings. */
  lemma TrendIncreasing(ts: seq<Transaction>)
    ensures forall i, j :: 0 <= i < j < |Trend(ts)| ==> StrLt(Trend(ts)[i].0, Trend(ts)[j].0)
  {
    var table := Table(ts, DateField, DaySpec);
    TableRows(ts, DateField, DaySpec);
    assert DistinctBy(table, RowKey) by {
      forall i, j | 0 <= i < j < |table|
        ensures RowKey(table[i]) != RowKey(table[j])
      {
        assert Keys(table)[i] == table[i].0 && Keys(table)[j] == table[j].0;
      }
    }
    SortTextIncreasing(table, RowKey);
    var r := Trend(ts);
    forall i, j | 0 <= i < j < |r|
      ensures StrLt(r[i].0, r[j].0)
    {
      assert StrLt(RowKey(r[i]), RowKey(r[j]));
    }
  }

  /** The transaction counts add up to the number of records and the revenues to the total revenue. */
  lemma TrendTotals(ts: seq<Transaction>)
    ensures SumInt(Trend(ts), CountOf) == |ts|
    ensures SumReal(Trend(ts), RevenueOf) == Revenue(ts)
  {
    var table := Table(ts, DateField, DaySpec);
    assert Keys(table) == GroupKeys(ts, DateField);
    RowsInt(table, CountOf, ts, DateField, One);
    RowsReal(table, RevenueOf, ts, DateField, Amount);
    IntOverGroupKeys(ts, DateField, One);
    RealOverGroupKeys(ts, DateField, Amount);
    CountAll(ts);
    SortTextCorrect(table, RowKey);
    SumIntPerm(table, Trend(ts), CountOf);
    SumRealPerm(table, Trend(ts), RevenueOf);
  }

  /**
   * A day's unique_customers is the number of distinct customer IDs among
   * that day's records: at least 1 and at most its transaction count.
   */
  lemma DayCustomers(ts: seq<Transaction>, k: string)
    requires Occurs(ts, DateField, k)
    ensures DaySpec(ts, k).uniqueCustomers ==
      |set i | 0 <= i < |ts| && ts[i].date == k :: ts[i].customerId|
    ensures 1 <= DaySpec(ts, k).uniqueCustomers <= DaySpec(ts, k).transactionCount
  {
    var cs := ValuesWhere(ts, DateField, k, CustomerField);
    GroupKeysExact(ts, DateField);
    GroupSizes(ts, DateField, k, CustomerField);
    ValuesWhereExact(ts, DateField, k, CustomerField);
    assert cs == set i | 0 <= i < |ts| && ts[i].date == k :: ts[i].customerId;
  }

  /** The trend is empty exactly when there are no records. */
  lemma TrendEmpty(ts: seq<Transaction>)
    ensures Trend(ts) == [] <==> ts == []
  {
    TrendRows(ts);
    if ts != [] {
      assert Occurs(ts, DateField, ts[0].date) by {
        assert KeyOf(ts[0], DateField) == ts[0].date;
      }
      assert ts[0].date in Keys(Trend(ts));
    }
  }

  // ---------------------------------------------------------------------
  // find_peak_sales_day
  // ---------------------------------------------------------------------

  /**
   * Python's max over the trend's items keyed by revenue: the first row
   * whose revenue no row exceeds.
   */
  function FirstPeak(trend: seq<(string, DailyStat)>): (p: nat)
    requires |trend| > 0
    ensures p < |trend|
    ensures forall q :: 0 <= q < |trend| ==> trend[q].1.revenue <= trend[p].1.revenue
    ensures forall q :: 0 <= q < p ==> trend[q].1.revenue < trend[p].1.revenue
  {
    if |trend| == 1 then 0
    else
      var p := FirstPeak(trend[..|trend| - 1]);
      if trend[|trend| - 1].1.revenue > trend[p].1.revenue then |trend| - 1 else p
  }

  /** The reference result: ("", 0.0, 0) without records, else the first peak row's date, revenue and count. */
  function PeakDay(ts: seq<Transaction>): (string, real, int) {
    var trend := Trend(ts);
    if trend == [] then ("", 0.0, 0)
    else
      var p := FirstPeak(trend);
      (trend[p].0, trend[p].1.revenue, trend[p].1.transactionCount)
  }

  /** find_peak_sales_day: the trend, then the sentinel or the first row of maximal revenue. */
  method FindPeakSalesDay(transactions: seq<Transaction>) returns (peak: (string, real, int))
    ensures peak == PeakDay(transactions)
    ensures transactions == [] <==> peak == ("", 0.0, 0)
  {
    var trend := DailySalesTrend(transactions);
    TrendEmpty(transactions);
    if trend == [] {
      return ("", 0.0, 0);
    }
    var p := FirstPeak(trend);
    assert trend[p] in trend;
    TrendRows(transactions);
    DayCountPositive(transactions, trend[p].0);
    peak := (trend[p].0, trend[p].1.revenue, trend[p].1.transactionCount);
  }

  lemma DayCountPositive(ts: seq<Transaction>, k: string)
    requires Occurs(ts, DateField, k)
    ensures DaySpec(ts, k).transactionCount >= 1
  {
    GroupKeysExact(ts, DateField);
    GroupSizes(ts, DateField, k, CustomerField);
  }

  /**
   * With records, the peak is a date that occurs, with that date's revenue
   * and count; no date has more revenue, and every earlier date has less:
   * among dates of equal revenue the earliest wins.
   */
  lemma PeakDayCorrect(ts: seq<Transaction>)
    requires ts != []
    ensures var (d, rev, cnt) := PeakDay(ts);
      && Occurs(ts, DateField, d)
      && rev == RealWhere(ts, DateField, d, Amount)
      && cnt == CountWhere(ts, DateField, d)
      && (forall k :: Occurs(ts, DateField, k) ==> RealWhere(ts, DateField, k, Amount) <= rev)
      && (forall k :: Occurs(ts, DateField, k) && StrLt(k, d) ==> RealWhere(ts, DateField, k, Amount) < rev)
  {
    var trend := Trend(ts);
    TrendEmpty(ts);
    TrendRows(ts);
    TrendIncreasing(ts);
    var p := FirstPeak(trend);
    var d := trend[p].0;
    assert trend[p] in trend;
    forall k | Occurs(ts, DateField, k)
      ensures RealWhere(ts, DateField, k, Amount) <= trend[p].1.revenue
      ensures StrLt(k, d) ==> RealWhere(ts, DateField, k, Amount) < trend[p].1.revenue
    {
      var row := (k, DaySpec(ts, k));
      assert row in trend;
      var q :| 0 <= q < |trend| && trend[q] == row;
      if StrLt(k, d) {
        if q > p {
          StrLtAsymmetric(d, k);
        } else if q == p {
          StrLtIrreflexive(k);
        }
      }
    }
  }
}
