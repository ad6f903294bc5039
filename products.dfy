/**
 * top_selling_products and low_performing_products of
 * utils/data_processor.py: both total quantity and revenue per product
 * name, then rank the products by quantity.
 */
module ProductSales {
  import opened Seqs
  import opened Sorting
  import opened Sales
  import opened Grouping

  /** A product's entry: the units sold and the revenue they brought. */
  datatype ProductStat = ProductStat(totalQty: int, totalRev: real)

  /** The sort key of a row, as list.sort(key=lambda x: x[1]) sees it. */
  function QtyOf(row: (string, ProductStat)): real {
    row.1.totalQty as real
  }

  /** What product k has accumulated after the records ts. */
  function ProductSpec(ts: seq<Transaction>, k: string): ProductStat {
    ProductStat(IntWhere(ts, ProductNameField, k, Quantity), RealWhere(ts, ProductNameField, k, Amount))
  }

  /** The dictionary the loop builds: one row per product name, in first-seen order. */
  function ProductTable(ts: seq<Transaction>): seq<(string, ProductStat)> {
    Table(ts, ProductNameField, ProductSpec)
  }

  const NewProduct := ProductStat(0, 0.0)

  /** The update of a product's entry by one sale. */
  function AddUnits(t: Transaction): ProductStat -> ProductStat {
    (s: ProductStat) => s.(totalQty := s.totalQty + t.quantity, totalRev := s.totalRev + Amount(t))
  }

  lemma AddUnitsStep(stats: seq<(string, ProductStat)>, done: seq<Transaction>, t: Transaction)
    requires Tabulates(stats, done, ProductNameField, ProductSpec)
    ensures Tabulates(Upsert(stats, t.productName, NewProduct, AddUnits(t)), done + [t], ProductNameField, ProductSpec)
  {
    var k := t.productName;
    assert KeyOf(t, ProductNameField) == k;
    IntSnoc(done, t, ProductNameField, k, Quantity);
    RealSnoc(done, t, ProductNameField, k, Amount);
    if k !in GroupKeys(done, ProductNameField) {
      AbsentKey(done, ProductNameField, k);
    }
    forall k' | k' in GroupKeys(done, ProductNameField) && k' != k
      ensures ProductSpec(done + [t], k') == ProductSpec(done, k')
    {
      IntSnoc(done, t, ProductNameField, k', Quantity);
      RealSnoc(done, t, ProductNameField, k', Amount);
    }
    UpsertStep(stats, done, t, ProductNameField, ProductSpec, NewProduct, AddUnits(t));
  }

  /**
   * The aggregation loop both functions open with: for each record, create
   * the product's entry if it is new, then add its quantity and revenue.
   */
  method AggregateProducts(transactions: seq<Transaction>) returns (stats: seq<(string, ProductStat)>)
    ensures stats == ProductTable(transactions)
  {
    stats := [];
    for i := 0 to |transactions|
      invariant Tabulates(stats, transactions[..i], ProductNameField, ProductSpec)
    {
      var t := transactions[i];
      ghost var before := stats;
      var name, qty, rev := t.productName, t.quantity, Amount(t);
      var j := KeyIndex(stats, name);
      if j == |stats| {
        stats := stats + [(name, NewProduct)];
      }
      var s := stats[j].1;
      stats := stats[j := (name, s.(totalQty := s.totalQty + qty, totalRev := s.totalRev + rev))];
      assert stats == Upsert(before, name, NewProduct, AddUnits(t));
      AddUnitsStep(before, transactions[..i], t);
      assert transactions[..i + 1] == transactions[..i] + [t];
    }
    assert transactions[..|transactions|] == transactions;
    TabulatesTable(stats, transactions, ProductNameField, ProductSpec);
  }

  // ---------------------------------------------------------------------
  // top_selling_products
  // ---------------------------------------------------------------------

  /** The products sorted by total quantity, largest first, ties in first-seen order. */
  function Ranked(ts: seq<Transaction>): seq<(string, ProductStat)> {
    SortBy(ProductTable(ts), QtyOf, true)
  }

  /** The reference result: the first n of the ranking (Python's result[:n]). */
  function TopProducts(ts: seq<Transaction>, n: int): seq<(string, ProductStat)> {
    Take(Ranked(ts), n)
  }

  /** top_selling_products: aggregate, sort by quantity in descending order, keep the first n. */
  method TopSellingProducts(transactions: seq<Transaction>, n: int) returns (result: seq<(string, ProductStat)>)
    ensures result == TopProducts(transactions, n)
  {
    var productStats := AggregateProducts(transactions);
    result := productStats;
    result := SortBy(result, QtyOf, true);
    result := Take(result, n);
  }

  /** The ranking holds every product once, with its totals. */
  lemma RankedRows(ts: seq<Transaction>)
    ensures |Ranked(ts)| == |GroupKeys(ts, ProductNameField)|
    ensures Distinct(Keys(Ranked(ts)))
    ensures forall row :: row in Ranked(ts) <==> Occurs(ts, ProductNameField, row.0) && row.1 == ProductSpec(ts, row.0)
  {
    SortByCorrect(ProductTable(ts), QtyOf, true);
    ReorderedTable(Ranked(ts), ts, ProductNameField, ProductSpec);
  }

  /** The ranking is by non-increasing quantity, and products with equal quantity keep first-seen order. */
  lemma RankedOrder(ts: seq<Transaction>)
    ensures forall i, j :: 0 <= i < j < |Ranked(ts)| ==> Ranked(ts)[i].1.totalQty >= Ranked(ts)[j].1.totalQty
    ensures forall q :: WithKey(Ranked(ts), QtyOf, q) == WithKey(ProductTable(ts), QtyOf, q)
  {
    var r := Ranked(ts);
    SortByCorrect(ProductTable(ts), QtyOf, true);
    forall i, j | 0 <= i < j < |r|
      ensures r[i].1.totalQty >= r[j].1.totalQty
    {
      assert Precedes(QtyOf(r[i]), QtyOf(r[j]), true);
    }
  }

  /**
   * top_selling_products(ts, n) for n >= 0: min(n, number of products)
   * rows, the leading rows of the ranking, each a product with its totals.
   */
  lemma TopProductsRows(ts: seq<Transaction>, n: int)
    requires n >= 0
    ensures var r := TopProducts(ts, n);
      && |r| == (if n < |GroupKeys(ts, ProductNameField)| then n else |GroupKeys(ts, ProductNameField)|)
      && IsPrefix(r, Ranked(ts))
      && (forall row :: row in r ==> Occurs(ts, ProductNameField, row.0) && row.1 == ProductSpec(ts, row.0))
  {
    var ranked := Ranked(ts);
    var r := TopProducts(ts, n);
    RankedRows(ts);
    assert r == ranked[..|r|];
    forall row | row in r
      ensures Occurs(ts, ProductNameField, row.0) && row.1 == ProductSpec(ts, row.0)
    {
      assert row in ranked;
    }
  }

  /**
   * The rows are by non-increasing quantity, and no product left out sold
   * more units than a product shown.
   */
  lemma TopProductsOrder(ts: seq<Transaction>, n: int)
    ensures var r := TopProducts(ts, n);
      && (forall i, j :: 0 <= i < j < |r| ==> r[i].1.totalQty >= r[j].1.totalQty)
      && (forall k, i :: Occurs(ts, ProductNameField, k) && k !in Keys(r) && 0 <= i < |r| ==>
            r[i].1.totalQty >= IntWhere(ts, ProductNameField, k, Quantity))
  {
    var ranked := Ranked(ts);
    var r := TopProducts(ts, n);
    assert |r| <= |ranked| && forall m :: 0 <= m < |r| ==> r[m] == ranked[m];
    RankedOrder(ts);
    forall k, i | Occurs(ts, ProductNameField, k) && k !in Keys(r) && 0 <= i < |r|
      ensures r[i].1.totalQty >= IntWhere(ts, ProductNameField, k, Quantity)
    {
      var p := RankedPosition(ts, k);
      assert p >= |r|;
    }
  }

  /** A product that occurs has a place in the ranking, with its own totals. */
  lemma RankedPosition(ts: seq<Transaction>, k: string) returns (p: nat)
    requires Occurs(ts, ProductNameField, k)
    ensures p < |Ranked(ts)| && Ranked(ts)[p] == (k, ProductSpec(ts, k))
  {
    RankedRows(ts);
    assert (k, ProductSpec(ts, k)) in Ranked(ts);
    p :| 0 <= p < |Ranked(ts)| && Ranked(ts)[p] == (k, ProductSpec(ts, k));
  }

  /** Among products with equal quantity, the rows shown are the first ones seen. */
  lemma TopProductsStable(ts: seq<Transaction>, n: int, q: real)
    ensures IsPrefix(WithKey(TopProducts(ts, n), QtyOf, q), WithKey(ProductTable(ts), QtyOf, q))
  {
    var ranked := Ranked(ts);
    var r := TopProducts(ts, n);
    RankedOrder(ts);
    assert ranked == r + ranked[|r|..];
    WithKeyAppend(r, ranked[|r|..], QtyOf, q);
  }

  // ---------------------------------------------------------------------
  // low_performing_products
  // ---------------------------------------------------------------------

  /** The comprehension's test: fewer units sold than the threshold. */
  function Below(threshold: int): ((string, ProductStat)) -> bool {
    (row: (string, ProductStat)) => row.1.totalQty < threshold
  }

  /** The reference result: the products below the threshold, by ascending quantity, ties in first-seen order. */
  function LowProducts(ts: seq<Transaction>, threshold: int): seq<(string, ProductStat)> {
    SortBy(Filter(ProductTable(ts), Below(threshold)), QtyOf, false)
  }

  /** low_performing_products: aggregate, keep the products below the threshold, sort by quantity ascending. */
  method LowPerformingProducts(transactions: seq<Transaction>, threshold: int)
    returns (lowList: seq<(string, ProductStat)>)
    ensures lowList == LowProducts(transactions, threshold)
  {
    var productMap := AggregateProducts(transactions);
    lowList := Filter(productMap, Below(threshold));
    lowList := SortBy(lowList, QtyOf, false);
  }

  /**
   * The result holds exactly the products whose total quantity is below
   * the threshold, each once, with its totals.
   */
  lemma LowProductsExact(ts: seq<Transaction>, threshold: int)
    ensures forall row :: row in LowProducts(ts, threshold) <==>
      Occurs(ts, ProductNameField, row.0) && row.1 == ProductSpec(ts, row.0) && row.1.totalQty < threshold
    ensures forall k :: k in Keys(LowProducts(ts, threshold)) <==>
      Occurs(ts, ProductNameField, k) && IntWhere(ts, ProductNameField, k, Quantity) < threshold
    ensures Distinct(Keys(LowProducts(ts, threshold)))
  {
    var table := ProductTable(ts);
    var kept := Filter(table, Below(threshold));
    var r := LowProducts(ts, threshold);
    TableRows(ts, ProductNameField, ProductSpec);
    FilterExact(table, Below(threshold));
    SortByCorrect(kept, QtyOf, false);
    SameElements(kept, r);
    LowProductsKeys(ts, threshold);
    FilterKeysDistinct(table, Below(threshold));
    PermDistinct(kept, r, RowKey);
    forall i, j | 0 <= i < j < |r|
      ensures Keys(r)[i] != Keys(r)[j]
    {
      assert RowKey(r[i]) != RowKey(r[j]);
    }
  }

  lemma LowProductsKeys(ts: seq<Transaction>, threshold: int)
    requires forall row :: row in LowProducts(ts, threshold) <==>
      Occurs(ts, ProductNameField, row.0) && row.1 == ProductSpec(ts, row.0) && row.1.totalQty < threshold
    ensures forall k :: k in Keys(LowProducts(ts, threshold)) <==>
      Occurs(ts, ProductNameField, k) && IntWhere(ts, ProductNameField, k, Quantity) < threshold
  {
    var r := LowProducts(ts, threshold);
    forall k
      ensures k in Keys(r) <==> Occurs(ts, ProductNameField, k) && IntWhere(ts, ProductNameField, k, Quantity) < threshold
    {
      if k in Keys(r) {
        var m :| 0 <= m < |r| && Keys(r)[m] == k;
        assert r[m] in r;
      }
      if Occurs(ts, ProductNameField, k) && IntWhere(ts, ProductNameField, k, Quantity) < threshold {
        var row := (k, ProductSpec(ts, k));
        assert row in r;
        var m :| 0 <= m < |r| && r[m] == row;
        assert Keys(r)[m] == k;
      }
    }
  }

  /** The result is by non-decreasing quantity, and products with equal quantity keep first-seen order. */
  lemma LowProductsOrder(ts: seq<Transaction>, threshold: int)
    ensures forall i, j :: 0 <= i < j < |LowProducts(ts, threshold)| ==>
      LowProducts(ts, threshold)[i].1.totalQty <= LowProducts(ts, threshold)[j].1.totalQty
    ensures forall q :: WithKey(LowProducts(ts, threshold), QtyOf, q)
                     == WithKey(Filter(ProductTable(ts), Below(threshold)), QtyOf, q)
  {
    var r := LowProducts(ts, threshold);
    SortByCorrect(Filter(ProductTable(ts), Below(threshold)), QtyOf, false);
    forall i, j | 0 <= i < j < |r|
      ensures r[i].1.totalQty <= r[j].1.totalQty
    {
      assert Precedes(QtyOf(r[i]), QtyOf(r[j]), false);
    }
  }

  /** Filtering a table with distinct keys leaves distinct keys. */
  lemma {:induction false} FilterKeysDistinct<S>(table: seq<(string, S)>, p: ((string, S)) -> bool)
    requires Distinct(Keys(table))
    ensures DistinctBy(Filter(table, p), RowKey)
  {
    if table != [] {
      var init, last := table[..|table| - 1], table[|table| - 1];
      assert Keys(init) == Keys(table)[..|table| - 1];
      FilterKeysDistinct(init, p);
      FilterExact(init, p);
      if p(last) {
        forall row | row in Filter(init, p)
          ensures RowKey(row) != RowKey(last)
        {
          FilterMember(init, p, row);
          var m :| 0 <= m < |init| && init[m] == row;
          assert Keys(table)[m] == row.0 && Keys(table)[|table| - 1] == last.0;
        }
        var r := Filter(table, p);
        assert r == Filter(init, p) + [last];
        forall i, j | 0 <= i < j < |r|
          ensures RowKey(r[i]) != RowKey(r[j])
        {
          if j == |r| - 1 {
            assert r[i] in Filter(init, p);
            FilterMember(init, p, r[i]);
          }
        }
      }
    }
  }

  /** With every quantity at least 1, each product's total is at least its number of sales. */
  lemma {:induction false} QuantityAtLeastCount(ts: seq<Transaction>, k: string)
    requires forall i :: 0 <= i < |ts| ==> ts[i].quantity >= 1
    ensures IntWhere(ts, ProductNameField, k, Quantity) >= CountWhere(ts, ProductNameField, k)
  {
    if ts != [] {
      QuantityAtLeastCount(ts[..|ts| - 1], k);
    }
  }

  /**
   * Over records with positive quantities (as validate_and_filter
   * guarantees) every product sold at least one unit, so a threshold of 1
   * or less reports no product.
   */
  lemma LowProductsEmpty(ts: seq<Transaction>, threshold: int)
    requires forall i :: 0 <= i < |ts| ==> ts[i].quantity > 0
    requires threshold <= 1
    ensures LowProducts(ts, threshold) == []
  {
    LowProductsExact(ts, threshold);
    var r := LowProducts(ts, threshold);
    if r != [] {
      var k := r[0].0;
      assert Keys(r)[0] == k;
      var i :| 0 <= i < |ts| && KeyOf(ts[i], ProductNameField) == k;
      GroupKeysExact(ts, ProductNameField);
      assert KeyOf(ts[i], ProductNameField) == k;
      GroupSizes(ts, ProductNameField, k, ProductNameField);
      QuantityAtLeastCount(ts, k);
      assert false;
    }
  }
}
