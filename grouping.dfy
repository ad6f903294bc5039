/**
 * The dictionary-building loops shared by the reducers of
 * utils/data_processor.py: grouping records by one text field in
 * first-seen order (a Python dict keeps insertion order), and the per-group
 * sums they accumulate. Also calculate_total_revenue.
 */
module Grouping {
  import opened Seqs
  import opened Sales

  /** The text field a reducer groups by. */
  datatype Field = RegionField | ProductNameField | CustomerField | DateField

  function KeyOf(t: Transaction, f: Field): string {
    match f
    case RegionField => t.region
    case ProductNameField => t.productName
    case CustomerField => t.customerId
    case DateField => t.date
  }

  /** Some record carries k in field f. */
  predicate Occurs(ts: seq<Transaction>, f: Field, k: string) {
    exists i :: 0 <= i < |ts| && KeyOf(ts[i], f) == k
  }

  /** The distinct keys of ts, in the order they are first seen: the keys of the dict a reducer builds. */
  function GroupKeys(ts: seq<Transaction>, f: Field): seq<string> {
    if ts == [] then []
    else
      var ks := GroupKeys(ts[..|ts| - 1], f);
      var k := KeyOf(ts[|ts| - 1], f);
      if k in ks then ks else ks + [k]
  }

  /** The sum of g over the records whose key is k. */
  function RealWhere(ts: seq<Transaction>, f: Field, k: string, g: Transaction -> real): real {
    if ts == [] then 0.0
    else RealWhere(ts[..|ts| - 1], f, k, g) + (if KeyOf(ts[|ts| - 1], f) == k then g(ts[|ts| - 1]) else 0.0)
  }

  function IntWhere(ts: seq<Transaction>, f: Field, k: string, g: Transaction -> int): int {
    if ts == [] then 0
    else IntWhere(ts[..|ts| - 1], f, k, g) + (if KeyOf(ts[|ts| - 1], f) == k then g(ts[|ts| - 1]) else 0)
  }

  /** The values of field g among the records whose key is k: the set a reducer adds to. */
  function ValuesWhere(ts: seq<Transaction>, f: Field, k: string, g: Field): set<string> {
    if ts == [] then {}
    else
      ValuesWhere(ts[..|ts| - 1], f, k, g)
      + (if KeyOf(ts[|ts| - 1], f) == k then {KeyOf(ts[|ts| - 1], g)} else {})
  }

  function One(t: Transaction): int { 1 }

  function Quantity(t: Transaction): int { t.quantity }

  /** The number of records whose key is k. */
  function CountWhere(ts: seq<Transaction>, f: Field, k: string): int {
    IntWhere(ts, f, k, One)
  }

  /** The sum of Quantity * UnitPrice over all records. */
  function Revenue(ts: seq<Transaction>): real {
    SumReal(ts, Amount)
  }

  /** calculate_total_revenue: the running total of every record's amount. */
  method CalculateTotalRevenue(transactions: seq<Transaction>) returns (total: real)
    ensures total == Revenue(transactions)
  {
    total := 0.0;
    for i := 0 to |transactions|
      invariant total == Revenue(transactions[..i])
    {
      assert transactions[..i + 1][..i] == transactions[..i];
      total := total + Amount(transactions[i]);
    }
    assert transactions[..|transactions|] == transactions;
  }

  /** The total revenue does not depend on the order of the records, and adds over concatenation. */
  lemma RevenueLaws(a: seq<Transaction>, b: seq<Transaction>)
    ensures Revenue(a + b) == Revenue(a) + Revenue(b)
    ensures multiset(a) == multiset(b) ==> Revenue(a) == Revenue(b)
  {
    SumRealAppend(a, b, Amount);
    if multiset(a) == multiset(b) {
      SumRealPerm(a, b, Amount);
    }
  }

  // ---------------------------------------------------------------------
  // Facts about the groups
  // ---------------------------------------------------------------------

  /** Each key appears once, and a string is a key iff some record carries it. */
  lemma {:induction false} GroupKeysExact(ts: seq<Transaction>, f: Field)
    ensures Distinct(GroupKeys(ts, f))
    ensures forall k :: k in GroupKeys(ts, f) <==> Occurs(ts, f, k)
  {
    if ts != [] {
      var init := ts[..|ts| - 1];
      GroupKeysExact(init, f);
      assert forall i :: 0 <= i < |init| ==> init[i] == ts[i];
    }
  }

  /** The record sequence extended by one: how each accumulation moves. */
  lemma RealSnoc(ts: seq<Transaction>, x: Transaction, f: Field, k: string, g: Transaction -> real)
    ensures RealWhere(ts + [x], f, k, g) == RealWhere(ts, f, k, g) + (if KeyOf(x, f) == k then g(x) else 0.0)
  {
    assert (ts + [x])[..|ts + [x]| - 1] == ts;
  }

  lemma IntSnoc(ts: seq<Transaction>, x: Transaction, f: Field, k: string, g: Transaction -> int)
    ensures IntWhere(ts + [x], f, k, g) == IntWhere(ts, f, k, g) + (if KeyOf(x, f) == k then g(x) else 0)
  {
    assert (ts + [x])[..|ts + [x]| - 1] == ts;
  }

  lemma ValuesSnoc(ts: seq<Transaction>, x: Transaction, f: Field, k: string, g: Field)
    ensures ValuesWhere(ts + [x], f, k, g) == ValuesWhere(ts, f, k, g) + (if KeyOf(x, f) == k then {KeyOf(x, g)} else {})
  {
    assert (ts + [x])[..|ts + [x]| - 1] == ts;
  }

  lemma KeysSnoc(ts: seq<Transaction>, x: Transaction, f: Field)
    ensures GroupKeys(ts + [x], f) ==
      if KeyOf(x, f) in GroupKeys(ts, f) then GroupKeys(ts, f) else GroupKeys(ts, f) + [KeyOf(x, f)]
  {
    assert (ts + [x])[..|ts + [x]| - 1] == ts;
  }

  /** A key no record carries has nothing accumulated. */
  lemma {:induction false} AbsentKey(ts: seq<Transaction>, f: Field, k: string)
    requires k !in GroupKeys(ts, f)
    ensures forall g :: RealWhere(ts, f, k, g) == 0.0
    ensures forall g :: IntWhere(ts, f, k, g) == 0
    ensures forall g :: ValuesWhere(ts, f, k, g) == {}
  {
    if ts != [] {
      AbsentKey(ts[..|ts| - 1], f, k);
    }
  }

  /** Every group holds at least one record, and at most as many distinct values as records. */
  lemma GroupSizes(ts: seq<Transaction>, f: Field, k: string, g: Field)
    ensures 0 <= |ValuesWhere(ts, f, k, g)| <= CountWhere(ts, f, k)
    ensures k in GroupKeys(ts, f) <==> CountWhere(ts, f, k) >= 1
    ensures k in GroupKeys(ts, f) ==> |ValuesWhere(ts, f, k, g)| >= 1
  {
    KeyCounted(ts, f, k);
    ValuesCounted(ts, f, k, g);
  }

  lemma {:induction false} KeyCounted(ts: seq<Transaction>, f: Field, k: string)
    ensures CountWhere(ts, f, k) >= 0
    ensures k in GroupKeys(ts, f) <==> CountWhere(ts, f, k) >= 1
  {
    if ts != [] {
      KeyCounted(ts[..|ts| - 1], f, k);
    }
  }

  lemma {:induction false} ValuesCounted(ts: seq<Transaction>, f: Field, k: string, g: Field)
    ensures |ValuesWhere(ts, f, k, g)| <= CountWhere(ts, f, k)
    ensures CountWhere(ts, f, k) >= 1 ==> |ValuesWhere(ts, f, k, g)| >= 1
  {
    if ts != [] {
      var init, x := ts[..|ts| - 1], ts[|ts| - 1];
      ValuesCounted(init, f, k, g);
      var vs := ValuesWhere(init, f, k, g);
      if KeyOf(x, f) == k {
        assert |vs + {KeyOf(x, g)}| <= |vs| + 1;
        assert KeyOf(x, g) in vs + {KeyOf(x, g)};
      }
    }
  }

  /** The value v is collected for key k iff some record with key k carries v in field g. */
  lemma {:induction false} ValuesWhereExact(ts: seq<Transaction>, f: Field, k: string, g: Field)
    ensures forall v :: v in ValuesWhere(ts, f, k, g) <==>
      exists i :: 0 <= i < |ts| && KeyOf(ts[i], f) == k && KeyOf(ts[i], g) == v
  {
    if ts != [] {
      var init := ts[..|ts| - 1];
      ValuesWhereExact(init, f, k, g);
      assert forall i :: 0 <= i < |init| ==> init[i] == ts[i];
    }
  }

  // ---------------------------------------------------------------------
  // Sums over the groups
  // ---------------------------------------------------------------------

  /** The sum over the keys ks of what each group accumulated. */
  function RealOverKeys(ks: seq<string>, ts: seq<Transaction>, f: Field, g: Transaction -> real): real {
    if ks == [] then 0.0 else RealOverKeys(ks[..|ks| - 1], ts, f, g) + RealWhere(ts, f, ks[|ks| - 1], g)
  }

  function IntOverKeys(ks: seq<string>, ts: seq<Transaction>, f: Field, g: Transaction -> int): int {
    if ks == [] then 0 else IntOverKeys(ks[..|ks| - 1], ts, f, g) + IntWhere(ts, f, ks[|ks| - 1], g)
  }

  lemma {:induction false} RealOverKeysSnoc(ks: seq<string>, ts: seq<Transaction>, x: Transaction, f: Field, g: Transaction -> real)
    requires Distinct(ks)
    ensures RealOverKeys(ks, ts + [x], f, g) == RealOverKeys(ks, ts, f, g) + (if KeyOf(x, f) in ks then g(x) else 0.0)
  {
    if ks != [] {
      var init := ks[..|ks| - 1];
      assert Distinct(init);
      RealOverKeysSnoc(init, ts, x, f, g);
      RealSnoc(ts, x, f, ks[|ks| - 1], g);
      assert KeyOf(x, f) in ks <==> KeyOf(x, f) in init || KeyOf(x, f) == ks[|ks| - 1] by {
        assert ks == init + [ks[|ks| - 1]];
      }
    }
  }

  lemma {:induction false} IntOverKeysSnoc(ks: seq<string>, ts: seq<Transaction>, x: Transaction, f: Field, g: Transaction -> int)
    requires Distinct(ks)
    ensures IntOverKeys(ks, ts + [x], f, g) == IntOverKeys(ks, ts, f, g) + (if KeyOf(x, f) in ks then g(x) else 0)
  {
    if ks != [] {
      var init := ks[..|ks| - 1];
      assert Distinct(init);
      IntOverKeysSnoc(init, ts, x, f, g);
      IntSnoc(ts, x, f, ks[|ks| - 1], g);
      assert KeyOf(x, f) in ks <==> KeyOf(x, f) in init || KeyOf(x, f) == ks[|ks| - 1] by {
        assert ks == init + [ks[|ks| - 1]];
      }
    }
  }

  /** Summing the groups' totals gives the total over all records: nothing is lost or counted twice. */
  lemma {:induction false} RealOverGroupKeys(ts: seq<Transaction>, f: Field, g: Transaction -> real)
    ensures RealOverKeys(GroupKeys(ts, f), ts, f, g) == SumReal(ts, g)
  {
    if ts != [] {
      var init, x := ts[..|ts| - 1], ts[|ts| - 1];
      assert ts == init + [x];
      RealOverGroupKeys(init, f, g);
      GroupKeysExact(init, f);
      var ks := GroupKeys(init, f);
      KeysSnoc(init, x, f);
      RealSnoc(init, x, f, KeyOf(x, f), g);
      RealOverKeysSnoc(ks, init, x, f, g);
      if KeyOf(x, f) !in ks {
        AbsentKey(init, f, KeyOf(x, f));
        assert (ks + [KeyOf(x, f)])[..|ks|] == ks;
      }
    }
  }

  lemma {:induction false} IntOverGroupKeys(ts: seq<Transaction>, f: Field, g: Transaction -> int)
    ensures IntOverKeys(GroupKeys(ts, f), ts, f, g) == SumInt(ts, g)
  {
    if ts != [] {
      var init, x := ts[..|ts| - 1], ts[|ts| - 1];
      assert ts == init + [x];
      IntOverGroupKeys(init, f, g);
      GroupKeysExact(init, f);
      var ks := GroupKeys(init, f);
      KeysSnoc(init, x, f);
      IntSnoc(init, x, f, KeyOf(x, f), g);
      IntOverKeysSnoc(ks, init, x, f, g);
      if KeyOf(x, f) !in ks {
        AbsentKey(init, f, KeyOf(x, f));
        assert (ks + [KeyOf(x, f)])[..|ks|] == ks;
      }
    }
  }

  lemma {:induction false} CountAll(ts: seq<Transaction>)
    ensures SumInt(ts, One) == |ts|
  {
    if ts != [] {
      CountAll(ts[..|ts| - 1]);
    }
  }

  /**
   * A table whose row for key k holds what group k accumulated sums, over
   * its rows, to the sum over its keys.
   */
  lemma {:induction false} RowsReal<S>(rows: seq<(string, S)>, h: ((string, S)) -> real,
                                        ts: seq<Transaction>, f: Field, g: Transaction -> real)
    requires forall m :: 0 <= m < |rows| ==> h(rows[m]) == RealWhere(ts, f, rows[m].0, g)
    ensures SumReal(rows, h) == RealOverKeys(Keys(rows), ts, f, g)
  {
    if rows != [] {
      var init := rows[..|rows| - 1];
      RowsReal(init, h, ts, f, g);
      assert Keys(rows)[..|rows| - 1] == Keys(init);
    }
  }

  lemma {:induction false} RowsInt<S>(rows: seq<(string, S)>, h: ((string, S)) -> int,
                                       ts: seq<Transaction>, f: Field, g: Transaction -> int)
    requires forall m :: 0 <= m < |rows| ==> h(rows[m]) == IntWhere(ts, f, rows[m].0, g)
    ensures SumInt(rows, h) == IntOverKeys(Keys(rows), ts, f, g)
  {
    if rows != [] {
      var init := rows[..|rows| - 1];
      RowsInt(init, h, ts, f, g);
      assert Keys(rows)[..|rows| - 1] == Keys(init);
    }
  }
  /** The key of a table row. */
  function RowKey<S>(row: (string, S)): string { row.0 }

  /**
   * A reordering of a table keyed by the groups of f still has each key
   * once, and its keys are exactly the values some record carries.
   */
  lemma PermutedTable<S>(table: seq<(string, S)>, result: seq<(string, S)>, ts: seq<Transaction>, f: Field)
    requires Keys(table) == GroupKeys(ts, f)
    requires multiset(table) == multiset(result)
    ensures Distinct(Keys(result))
    ensures forall k :: k in Keys(result) <==> Occurs(ts, f, k)
  {
    GroupKeysExact(ts, f);
    assert DistinctBy(table, RowKey) by {
      forall i, j | 0 <= i < j < |table|
        ensures RowKey(table[i]) != RowKey(table[j])
      {
        assert Keys(table)[i] == table[i].0 && Keys(table)[j] == table[j].0;
      }
    }
    PermDistinct(table, result, RowKey);
    forall i, j | 0 <= i < j < |result|
      ensures Keys(result)[i] != Keys(result)[j]
    {
      assert RowKey(result[i]) != RowKey(result[j]);
    }
    forall k
      ensures k in Keys(result) <==> k in Keys(table)
    {
      if k in Keys(result) {
        var m :| 0 <= m < |result| && Keys(result)[m] == k;
        assert result[m] in multiset(table);
        var p :| 0 <= p < |table| && table[p] == result[m];
        assert Keys(table)[p] == k;
      }
      if k in Keys(table) {
        var p :| 0 <= p < |table| && Keys(table)[p] == k;
        assert table[p] in multiset(result);
        var m :| 0 <= m < |result| && result[m] == table[p];
        assert Keys(result)[m] == k;
      }
    }
  }

  // ---------------------------------------------------------------------
  // The loop body every reducer shares
  // ---------------------------------------------------------------------

  /**
   * The table a reducer's loop has built after the records ts: one row per
   * key seen so far, in first-seen order, holding spec(ts, key).
   */
  predicate Tabulates<S(==)>(table: seq<(string, S)>, ts: seq<Transaction>, f: Field,
                         spec: (seq<Transaction>, string) -> S) {
    && Keys(table) == GroupKeys(ts, f)
    && forall m :: 0 <= m < |table| ==> table[m].1 == spec(ts, table[m].0)
  }

  /**
   * `if k not in d: d[k] = init`, followed by an in-place update of d[k]:
   * a new key gets a row at the end, an old key keeps its position.
   */
  function Upsert<S>(table: seq<(string, S)>, k: string, init: S, upd: S -> S): seq<(string, S)> {
    var j := KeyIndex(table, k);
    var base := if j == |table| then table + [(k, init)] else table;
    base[j := (k, upd(base[j].1))]
  }

  /**
   * One record folded into the table: when the group statistics start at
   * init, move by upd for the record's own key and stay put for every
   * other key, the table still holds spec of the longer prefix.
   */
  lemma UpsertStep<S>(table: seq<(string, S)>, done: seq<Transaction>, t: Transaction, f: Field,
                      spec: (seq<Transaction>, string) -> S, init: S, upd: S -> S)
    requires Tabulates(table, done, f, spec)
    requires KeyOf(t, f) !in GroupKeys(done, f) ==> spec(done, KeyOf(t, f)) == init
    requires spec(done + [t], KeyOf(t, f)) == upd(spec(done, KeyOf(t, f)))
    requires forall k :: k in GroupKeys(done, f) && k != KeyOf(t, f) ==> spec(done + [t], k) == spec(done, k)
    ensures Tabulates(Upsert(table, KeyOf(t, f), init, upd), done + [t], f, spec)
  {
    var k := KeyOf(t, f);
    var j := KeyIndex(table, k);
    var base := if j == |table| then table + [(k, init)] else table;
    var next := base[j := (k, upd(base[j].1))];
    assert next == Upsert(table, k, init, upd);
    KeysSnoc(done, t, f);
    assert j < |table| <==> k in Keys(table) by {
      if j < |table| {
        assert Keys(table)[j] == k;
      }
    }
    assert base[j].1 == spec(done, k) by {
      if j < |table| {
        assert table[j].0 == k;
      }
    }
    UpsertKeys(table, k, j, init, upd(base[j].1));
    forall m | 0 <= m < |next|
      ensures next[m].1 == spec(done + [t], next[m].0)
    {
      if m == j {
        assert next[m] == (k, upd(spec(done, k)));
      } else {
        assert next[m] == table[m] && Keys(table)[m] == table[m].0;
        assert table[m].0 in GroupKeys(done, f);
        assert table[m].0 != k by {
          GroupKeysExact(done, f);
          if j < |table| {
            assert Keys(table)[j] == k;
          }
        }
      }
    }
  }

  lemma UpsertKeys<S>(table: seq<(string, S)>, k: string, j: nat, init: S, v: S)
    requires j <= |table| && (j < |table| ==> table[j].0 == k)
    ensures var base := if j == |table| then table + [(k, init)] else table;
      Keys(base[j := (k, v)]) == if j == |table| then Keys(table) + [k] else Keys(table)
  {
  }



  /** The finished table: spec of the whole input for each key, in first-seen order. */
  function Table<S>(ts: seq<Transaction>, f: Field, spec: (seq<Transaction>, string) -> S): (table: seq<(string, S)>)
    ensures |table| == |GroupKeys(ts, f)|
    ensures forall m :: 0 <= m < |table| ==> table[m] == (GroupKeys(ts, f)[m], spec(ts, GroupKeys(ts, f)[m]))
  {
    var ks := GroupKeys(ts, f);
    seq(|ks|, m requires 0 <= m < |ks| => (ks[m], spec(ts, ks[m])))
  }

  /** A loop that ends with its table tabulating the whole input has built exactly Table. */
  lemma TabulatesTable<S>(table: seq<(string, S)>, ts: seq<Transaction>, f: Field,
                          spec: (seq<Transaction>, string) -> S)
    requires Tabulates(table, ts, f, spec)
    ensures table == Table(ts, f, spec)
  {
    assert forall m :: 0 <= m < |table| ==> table[m].0 == Keys(table)[m];
  }

  /**
   * The rows of Table are exactly the pairs of a key some record carries
   * with that key's statistics, and each key has one row.
   */
  lemma TableRows<S>(ts: seq<Transaction>, f: Field, spec: (seq<Transaction>, string) -> S)
    ensures Keys(Table(ts, f, spec)) == GroupKeys(ts, f)
    ensures Distinct(Keys(Table(ts, f, spec)))
    ensures forall row :: row in Table(ts, f, spec) <==>
      Occurs(ts, f, row.0) && row.1 == spec(ts, row.0)
  {
    var table := Table(ts, f, spec);
    var ks := GroupKeys(ts, f);
    GroupKeysExact(ts, f);
    forall row
      ensures row in table <==> row.0 in ks && row.1 == spec(ts, row.0)
    {
      if row.0 in ks && row.1 == spec(ts, row.0) {
        var m :| 0 <= m < |ks| && ks[m] == row.0;
        assert table[m] == row;
      }
    }
  }

  /**
   * A reordering of Table (a sorted view of it) still has one row per key
   * that occurs in the input, holding that key's statistics, and no other.
   */
  lemma ReorderedTable<S>(result: seq<(string, S)>, ts: seq<Transaction>, f: Field,
                          spec: (seq<Transaction>, string) -> S)
    requires multiset(result) == multiset(Table(ts, f, spec))
    ensures |result| == |GroupKeys(ts, f)|
    ensures Distinct(Keys(result))
    ensures forall k :: k in Keys(result) <==> Occurs(ts, f, k)
    ensures forall row :: row in result <==> Occurs(ts, f, row.0) && row.1 == spec(ts, row.0)
  {
    var table := Table(ts, f, spec);
    TableRows(ts, f, spec);
    PermutedTable(table, result, ts, f);
    forall row
      ensures row in result <==> row in table
    {
      assert row in result <==> row in multiset(result);
      assert row in table <==> row in multiset(table);
    }
    assert |multiset(result)| == |multiset(table)|;
  }
}
