/** customer_analysis of utils/data_processor.py. */
module CustomerSales {
  import opened Seqs
  import opened Strings
  import opened Sorting
  import opened Sales
  import opened Grouping

  /** A customer's dictionary while the loop runs: products_bought is still a set. */
  datatype CustomerAcc = CustomerAcc(totalSpent: real, purchaseCount: int, avgOrderValue: real,
                                     productsBought: set<string>)

  /** A customer's dictionary as returned: products_bought has become a sorted list. */
  datatype CustomerStat = CustomerStat(totalSpent: real, purchaseCount: int, avgOrderValue: real,
                                       productsBought: seq<string>)

  function SpentOf(row: (string, CustomerStat)): real { row.1.totalSpent }

  function PurchasesOf(row: (string, CustomerStat)): int { row.1.purchaseCount }

  // ---------------------------------------------------------------------
  // sorted(list(s)) for a set of str
  // ---------------------------------------------------------------------

  predicate IsLeast(m: string, s: set<string>) {
    m in s && forall y :: y in s ==> StrLe(m, y)
  }

  /** Every non-empty set of strings has a least element. */
  lemma {:induction false} LeastExists(s: set<string>)
    requires s != {}
    ensures exists m :: IsLeast(m, s)
    decreases |s|
  {
    var x :| x in s;
    if s - {x} == {} {
      assert s == {x};
      assert IsLeast(x, s);
    } else {
      LeastExists(s - {x});
      var m :| IsLeast(m, s - {x});
      if StrLe(m, x) {
        forall y | y in s
          ensures StrLe(m, y)
        {
          if y != x {
            assert y in s - {x};
          }
        }
        assert IsLeast(m, s);
      } else {
        StrLtTotal(m, x);
        forall y | y in s
          ensures StrLe(x, y)
        {
          if y != x {
            assert y in s - {x};
            StrLeTransitive(x, m, y);
          }
        }
        assert IsLeast(x, s);
      }
    }
  }

  /** The elements of s in increasing order: what sorted(list(s)) returns. */
  ghost function SortedSet(s: set<string>): (r: seq<string>)
    ensures TextIncreasing(r, Ident)
    ensures forall x :: x in r <==> x in s
    decreases |s|
  {
    if s == {} then []
    else
      LeastExists(s);
      var m :| IsLeast(m, s);
      var rest := SortedSet(s - {m});
      LeastFirst(m, s, rest);
      [m] + rest
  }

  lemma LeastFirst(m: string, s: set<string>, rest: seq<string>)
    requires IsLeast(m, s)
    requires TextIncreasing(rest, Ident)
    requires forall x :: x in rest <==> x in s - {m}
    ensures TextIncreasing([m] + rest, Ident)
  {
    var r := [m] + rest;
    forall i, j | 0 <= i < j < |r|
      ensures StrLt(Ident(r[i]), Ident(r[j]))
    {
      if i == 0 {
        assert r[j] in rest;
        assert StrLe(m, r[j]) && r[j] != m;
      } else {
        assert r[i] == rest[i - 1] && r[j] == rest[j - 1];
      }
    }
  }

  /**
   * sorted(list(s)): list the elements in whatever order the set yields
   * them, then sort them. The result is the one increasing list of s.
   */
  method SortedList(s: set<string>) returns (r: seq<string>)
    ensures r == SortedSet(s)
  {
    var items: seq<string> := [];
    var rest := s;
    while rest != {}
      invariant rest <= s
      invariant forall x :: x in items <==> x in s && x !in rest
      invariant DistinctBy(items, Ident)
      decreases |rest|
    {
      var x :| x in rest;
      items := items + [x];
      rest := rest - {x};
    }
    r := SortText(items, Ident);
    SortTextIncreasing(items, Ident);
    SortTextCorrect(items, Ident);
    SameElements(items, r);
    IncreasingUnique(r, SortedSet(s));
  }

  // ---------------------------------------------------------------------
  // The accumulation
  // ---------------------------------------------------------------------

  /** What customer k has accumulated after the records ts. */
  function AccSpec(ts: seq<Transaction>, k: string): CustomerAcc {
    CustomerAcc(RealWhere(ts, CustomerField, k, Amount), CountWhere(ts, CustomerField, k), 0.0,
                ValuesWhere(ts, CustomerField, k, ProductNameField))
  }

  const NewCustomer := CustomerAcc(0.0, 0, 0.0, {})

  /** The update of a customer's entry by one purchase. */
  function AddPurchase(t: Transaction): CustomerAcc -> CustomerAcc {
    (s: CustomerAcc) => s.(totalSpent := s.totalSpent + Amount(t), purchaseCount := s.purchaseCount + 1,
                          productsBought := s.productsBought + {t.productName})
  }

  lemma AddPurchaseStep(stats: seq<(string, CustomerAcc)>, done: seq<Transaction>, t: Transaction)
    requires Tabulates(stats, done, CustomerField, AccSpec)
    ensures Tabulates(Upsert(stats, t.customerId, NewCustomer, AddPurchase(t)), done + [t], CustomerField, AccSpec)
  {
    var k := t.customerId;
    assert KeyOf(t, CustomerField) == k && KeyOf(t, ProductNameField) == t.productName;
    RealSnoc(done, t, CustomerField, k, Amount);
    IntSnoc(done, t, CustomerField, k, One);
    ValuesSnoc(done, t, CustomerField, k, ProductNameField);
    if k !in GroupKeys(done, CustomerField) {
      AbsentKey(done, CustomerField, k);
    }
    forall k' | k' in GroupKeys(done, CustomerField) && k' != k
      ensures AccSpec(done + [t], k') == AccSpec(done, k')
    {
      RealSnoc(done, t, CustomerField, k', Amount);
      IntSnoc(done, t, CustomerField, k', One);
      ValuesSnoc(done, t, CustomerField, k', ProductNameField);
    }
    UpsertStep(stats, done, t, CustomerField, AccSpec, NewCustomer, AddPurchase(t));
  }

  /** (total / count) if count else 0.0 */
  function Average(total: real, count: int): real {
    if count != 0 then total / count as real else 0.0
  }

  /** The second loop's work on one entry: the average filled in, the set turned into a sorted list. */
  ghost function Finish(a: CustomerAcc): CustomerStat {
    CustomerStat(a.totalSpent, a.purchaseCount, Average(a.totalSpent, a.purchaseCount), SortedSet(a.productsBought))
  }

  /** What customer k ends up with. */
  ghost function CustomerSpec(ts: seq<Transaction>, k: string): CustomerStat {
    Finish(AccSpec(ts, k))
  }

  /** The reference result: the finished table sorted by total spent, largest first, ties in first-seen order. */
  ghost function CustomerSummary(ts: seq<Transaction>): seq<(string, CustomerStat)> {
    SortBy(Table(ts, CustomerField, CustomerSpec), SpentOf, true)
  }

  /** customer_analysis's first loop: accumulate spend, count and the set of products per customer. */
  method AggregateCustomers(transactions: seq<Transaction>) returns (stats: seq<(string, CustomerAcc)>)
    ensures stats == Table(transactions, CustomerField, AccSpec)
  {
    stats := [];
    for i := 0 to |transactions|
      invariant Tabulates(stats, transactions[..i], CustomerField, AccSpec)
    {
      var t := transactions[i];
      ghost var before := stats;
      var cid, pname, amount := t.customerId, t.productName, Amount(t);
      var j := KeyIndex(stats, cid);
      if j == |stats| {
        stats := stats + [(cid, NewCustomer)];
      }
      var s := stats[j].1;
      stats := stats[j := (cid, s.(totalSpent := s.totalSpent + amount, purchaseCount := s.purchaseCount + 1,
                                   productsBought := s.productsBought + {pname}))];
      assert stats == Upsert(before, cid, NewCustomer, AddPurchase(t));
      AddPurchaseStep(before, transactions[..i], t);
      assert transactions[..i + 1] == transactions[..i] + [t];
    }
    assert transactions[..|transactions|] == transactions;
    TabulatesTable(stats, transactions, CustomerField, AccSpec);
  }

  /**
   * customer_analysis: the accumulation, then a second loop that fills in
   * each average and turns each set of products into a sorted list, then
   * the sort by total spent in descending order.
   */
  method CustomerAnalysis(transactions: seq<Transaction>) returns (result: seq<(string, CustomerStat)>)
    ensures result == CustomerSummary(transactions)
  {
    var stats := AggregateCustomers(transactions);
    var finished: seq<(string, CustomerStat)> := [];
    for m := 0 to |stats|
      invariant |finished| == m
      invariant forall q :: 0 <= q < m ==> finished[q] == (stats[q].0, Finish(stats[q].1))
    {
      var s := stats[m].1;
      var count, total := s.purchaseCount, s.totalSpent;
      var avg := if count != 0 then total / count as real else 0.0;
      var products := SortedList(s.productsBought);
      finished := finished + [(stats[m].0, CustomerStat(total, count, avg, products))];
    }
    FinishedTable(stats, finished, transactions);
    result := SortBy(finished, SpentOf, true);
  }

  lemma FinishedTable(stats: seq<(string, CustomerAcc)>, finished: seq<(string, CustomerStat)>, ts: seq<Transaction>)
    requires stats == Table(ts, CustomerField, AccSpec)
    requires |finished| == |stats|
    requires forall q :: 0 <= q < |stats| ==> finished[q] == (stats[q].0, Finish(stats[q].1))
    ensures finished == Table(ts, CustomerField, CustomerSpec)
  {
  }

  // ---------------------------------------------------------------------
  // What the result promises
  // ---------------------------------------------------------------------

  /** One row per customer that occurs in the input, each once, holding that customer's statistics. */
  lemma CustomerSummaryRows(ts: seq<Transaction>)
    ensures |CustomerSummary(ts)| == |GroupKeys(ts, CustomerField)|
    ensures Distinct(Keys(CustomerSummary(ts)))
    ensures forall k :: k in Keys(CustomerSummary(ts)) <==> Occurs(ts, CustomerField, k)
    ensures forall row :: row in CustomerSummary(ts) <==> Occurs(ts, CustomerField, row.0) && row.1 == CustomerSpec(ts, row.0)
  {
    SortByCorrect(Table(ts, CustomerField, CustomerSpec), SpentOf, true);
    ReorderedTable(CustomerSummary(ts), ts, CustomerField, CustomerSpec);
  }

  /** Rows are by non-increasing total spent; customers with equal totals keep first-seen order. */
  lemma CustomerSummaryOrder(ts: seq<Transaction>)
    ensures forall i, j :: 0 <= i < j < |CustomerSummary(ts)| ==>
      CustomerSummary(ts)[i].1.totalSpent >= CustomerSummary(ts)[j].1.totalSpent
    ensures forall x :: WithKey(CustomerSummary(ts), SpentOf, x) == WithKey(Table(ts, CustomerField, CustomerSpec), SpentOf, x)
  {
    SortByCorrect(Table(ts, CustomerField, CustomerSpec), SpentOf, true);
  }

  /** Each customer has at least one purchase, and the average times the count is the total. */
  lemma CustomerAverage(ts: seq<Transaction>, k: string)
    requires Occurs(ts, CustomerField, k)
    ensures CustomerSpec(ts, k).purchaseCount >= 1
    ensures CustomerSpec(ts, k).avgOrderValue * CustomerSpec(ts, k).purchaseCount as real == CustomerSpec(ts, k).totalSpent
  {
    var c := CustomerSpec(ts, k);
    assert c.purchaseCount >= 1 by {
      GroupKeysExact(ts, CustomerField);
      GroupSizes(ts, CustomerField, k, ProductNameField);
    }
    assert c.avgOrderValue == Average(c.totalSpent, c.purchaseCount);
    AverageTimesCount(c.totalSpent, c.purchaseCount);
  }

  lemma AverageTimesCount(total: real, count: int)
    requires count >= 1
    ensures Average(total, count) * count as real == total
  {
  }

  /**
   * products_bought is strictly increasing, holds exactly the names of the
   * products that customer bought, and has no more of them than purchases.
   */
  lemma CustomerProducts(ts: seq<Transaction>, k: string)
    ensures TextIncreasing(CustomerSpec(ts, k).productsBought, Ident)
    ensures forall p :: p in CustomerSpec(ts, k).productsBought <==>
      exists i :: 0 <= i < |ts| && ts[i].customerId == k && ts[i].productName == p
    ensures |CustomerSpec(ts, k).productsBought| <= CustomerSpec(ts, k).purchaseCount
  {
    var bought := ValuesWhere(ts, CustomerField, k, ProductNameField);
    var list := CustomerSpec(ts, k).productsBought;
    assert list == SortedSet(bought);
    GroupSizes(ts, CustomerField, k, ProductNameField);
    ValuesWhereExact(ts, CustomerField, k, ProductNameField);
    DistinctSize(list, bought);
  }

  /** A list without repeats that holds exactly the elements of a set is as long as the set is large. */
  lemma {:induction false} DistinctSize(r: seq<string>, s: set<string>)
    requires TextIncreasing(r, Ident)
    requires forall x :: x in r <==> x in s
    ensures |r| == |s|
  {
    if r != [] {
      var x := r[|r| - 1];
      var init := r[..|r| - 1];
      forall y
        ensures y in init <==> y in s - {x}
      {
        if y in init {
          var i :| 0 <= i < |init| && init[i] == y;
          assert StrLt(Ident(r[i]), Ident(r[|r| - 1]));
          StrLtIrreflexive(x);
        }
        if y in s - {x} {
          assert y in r;
          var i :| 0 <= i < |r| && r[i] == y;
          assert i != |r| - 1;
          assert y == init[i];
        }
      }
      DistinctSize(init, s - {x});
    } else {
      assert forall x :: x !in s;
    }
  }

  /** The purchase counts add up to the number of records and the totals to the total revenue. */
  lemma CustomerSummaryTotals(ts: seq<Transaction>)
    ensures SumInt(CustomerSummary(ts), PurchasesOf) == |ts|
    ensures SumReal(CustomerSummary(ts), SpentOf) == Revenue(ts)
  {
    var table := Table(ts, CustomerField, CustomerSpec);
    assert Keys(table) == GroupKeys(ts, CustomerField);
    RowsInt(table, PurchasesOf, ts, CustomerField, One);
    RowsReal(table, SpentOf, ts, CustomerField, Amount);
    IntOverGroupKeys(ts, CustomerField, One);
    RealOverGroupKeys(ts, CustomerField, Amount);
    CountAll(ts);
    SortByCorrect(table, SpentOf, true);
    SumIntPerm(table, CustomerSummary(ts), PurchasesOf);
    SumRealPerm(table, CustomerSummary(ts), SpentOf);
  }
}
