/**
 * The record parsers of utils/data_processor.py: parse_transactions, which
 * only converts, and the older clean_sales_data, which converts and applies
 * the domain rules in the same pass.
 */
module Parser {
  import opened Options
  import opened Strings
  import opened Seqs
  import opened Sales

  // ---------------------------------------------------------------------
  // parse_transactions
  // ---------------------------------------------------------------------

  /**
   * What parse_transactions makes of one raw line: None when the line does
   * not have exactly eight '|' fields or its quantity or price does not
   * convert; otherwise the stripped fields, with commas removed from the
   * product name and from the two numbers before conversion.
   */
  function ParseLine(line: string): Option<Transaction> {
    var parts := Split(line, '|');
    if |parts| != 8 then None
    else
      var quantity := ParseInt(RemoveAll(Strip(parts[4]), ','));
      var price := ParseDecimal(RemoveAll(Strip(parts[5]), ','));
      if quantity.None? || price.None? then None
      else Some(Transaction(Strip(parts[0]), Strip(parts[1]), Strip(parts[2]),
                            RemoveAll(Strip(parts[3]), ','), quantity.value, price.value,
                            Strip(parts[6]), Strip(parts[7])))
  }

  /** The reference result: each line that parses, in input order. */
  function ParseAll(lines: seq<string>): seq<Transaction> {
    FilterMap(lines, ParseLine)
  }

  /** parse_transactions: one pass over the lines, silently skipping the ones that fail. */
  method ParseTransactions(lines: seq<string>) returns (transactions: seq<Transaction>)
    ensures transactions == ParseAll(lines)
  {
    transactions := [];
    for i := 0 to |lines|
      invariant transactions == ParseAll(lines[..i])
    {
      assert lines[..i + 1][..i] == lines[..i];
      var parts := Split(lines[i], '|');
      if |parts| != 8 {
        continue;
      }
      var transactionId, date, productId := Strip(parts[0]), Strip(parts[1]), Strip(parts[2]);
      var productName, qty, unitPrice := Strip(parts[3]), Strip(parts[4]), Strip(parts[5]);
      var customerId, region := Strip(parts[6]), Strip(parts[7]);
      productName := RemoveAll(productName, ',');
      var quantity := ParseInt(RemoveAll(qty, ','));
      var price := ParseDecimal(RemoveAll(unitPrice, ','));
      if quantity.None? || price.None? {
        continue;
      }
      transactions := transactions + [Transaction(transactionId, date, productId, productName,
                                                  quantity.value, price.value, customerId, region)];
    }
    assert lines[..|lines|] == lines;
  }

  /**
   * parse_transactions keeps exactly the lines that parse, in input order:
   * the j-th record comes from the j-th parsing line, the positions of the
   * parsing lines increase, and a line is among them iff it parses.
   */
  lemma ParseAllExact(lines: seq<string>)
    ensures |ParseAll(lines)| == |AcceptedIndices(lines, ParseLine)|
    ensures forall j :: 0 <= j < |AcceptedIndices(lines, ParseLine)| ==>
              0 <= AcceptedIndices(lines, ParseLine)[j] < |lines|
              && ParseLine(lines[AcceptedIndices(lines, ParseLine)[j]]) == Some(ParseAll(lines)[j])
    ensures forall j, j' :: 0 <= j < j' < |AcceptedIndices(lines, ParseLine)| ==>
              AcceptedIndices(lines, ParseLine)[j] < AcceptedIndices(lines, ParseLine)[j']
    ensures forall i :: 0 <= i < |lines| ==>
              (i in AcceptedIndices(lines, ParseLine) <==> ParseLine(lines[i]).Some?)
  {
    FilterMapExact(lines, ParseLine);
  }

  /**
   * Every parsed record has stripped, separator-free text fields and a
   * product name without commas.
   */
  lemma ParseLineFields(line: string)
    requires ParseLine(line).Some?
    ensures var t := ParseLine(line).value;
      && Stripped(t.transactionId) && Stripped(t.date) && Stripped(t.productId)
      && Stripped(t.customerId) && Stripped(t.region)
      && ',' !in t.productName
      && '|' !in t.transactionId && '|' !in t.date && '|' !in t.productId
      && '|' !in t.productName && '|' !in t.customerId && '|' !in t.region
  {
    var parts := Split(line, '|');
    SplitParts(line, '|');
    forall k | 0 <= k < 8
      ensures '|' !in Strip(parts[k])
    {
      StripInside(parts[k], '|');
    }
    var name := Strip(parts[3]);
    RemoveAllCounts(name, ',');
    assert multiset(RemoveAll(name, ','))['|'] == multiset(name)['|'];
  }

  /** Stripping never introduces a character. */
  lemma StripInside(s: string, c: char)
    requires c !in s
    ensures c !in Strip(s)
  {
    var r := Strip(s);
    var i, j := StripSlice(s);
    assert forall k :: 0 <= k < |r| ==> r[k] == s[i + k];
  }

  /** The same holds for every record parse_transactions returns. */
  lemma ParseAllFields(lines: seq<string>)
    ensures forall t :: t in ParseAll(lines) ==>
      && Stripped(t.transactionId) && Stripped(t.date) && Stripped(t.productId)
      && Stripped(t.customerId) && Stripped(t.region) && ',' !in t.productName
      && '|' !in t.transactionId && '|' !in t.date && '|' !in t.productId
      && '|' !in t.productName && '|' !in t.customerId && '|' !in t.region
  {
    ParseAllExact(lines);
    var idx := AcceptedIndices(lines, ParseLine);
    forall t | t in ParseAll(lines)
      ensures Stripped(t.transactionId) && Stripped(t.date) && Stripped(t.productId)
      ensures Stripped(t.customerId) && Stripped(t.region) && ',' !in t.productName
      ensures '|' !in t.transactionId && '|' !in t.date && '|' !in t.productId
      ensures '|' !in t.productName && '|' !in t.customerId && '|' !in t.region
    {
      var j :| 0 <= j < |ParseAll(lines)| && ParseAll(lines)[j] == t;
      ParseLineFields(lines[idx[j]]);
    }
  }

  /** A line that parses has exactly seven '|' separators. */
  lemma ParseLineSeparators(line: string)
    requires ParseLine(line).Some?
    ensures multiset(line)['|'] == 7
  {
    SplitCount(line, '|');
  }

  /** The text fields of a record that Fields writes out and ParseLine reads back unchanged. */
  predicate Writable(t: Transaction) {
    && Stripped(t.transactionId) && Stripped(t.date) && Stripped(t.productId)
    && Stripped(t.productName) && Stripped(t.customerId) && Stripped(t.region)
    && '|' !in t.transactionId && '|' !in t.date && '|' !in t.productId
    && '|' !in t.productName && '|' !in t.customerId && '|' !in t.region
    && ',' !in t.productName
  }

  /** The eight fields of a record whose price is a whole number, in file order. */
  function Fields(t: Transaction): seq<string>
    requires t.unitPrice == t.unitPrice.Floor as real
  {
    [t.transactionId, t.date, t.productId, t.productName,
     IntToString(t.quantity), IntToString(t.unitPrice.Floor), t.customerId, t.region]
  }

  lemma IntToStringClean(n: int)
    ensures Stripped(IntToString(n)) && ',' !in IntToString(n) && '|' !in IntToString(n)
  {
    var s := IntToString(n);
    var d := NatToString(if n < 0 then -n else n);
    assert ',' !in d && '|' !in d by {
      assert forall i :: 0 <= i < |d| ==> IsDigit(d[i]);
    }
    if n < 0 {
      assert s == "-" + d;
    }
  }

  /**
   * parse_transactions reads back a line written from its fields, for every
   * quantity, including zero and negative ones: it applies no domain rule.
   */
  lemma ParseLineRoundTrip(t: Transaction)
    requires Writable(t) && t.unitPrice == t.unitPrice.Floor as real
    ensures ParseLine(Join(Fields(t), '|')) == Some(t)
  {
    var fs := Fields(t);
    var line := Join(fs, '|');
    assert Split(line, '|') == fs by {
      SplitFields(t);
    }
    assert Strip(fs[0]) == t.transactionId && Strip(fs[1]) == t.date && Strip(fs[2]) == t.productId by {
      StripStripped(t.transactionId);
      StripStripped(t.date);
      StripStripped(t.productId);
    }
    assert RemoveAll(Strip(fs[3]), ',') == t.productName by {
      TextBack(t.productName);
    }
    assert ParseInt(RemoveAll(Strip(fs[4]), ',')) == Some(t.quantity) by {
      QuantityBack(t.quantity);
    }
    assert ParseDecimal(RemoveAll(Strip(fs[5]), ',')) == Some(t.unitPrice) by {
      PriceBack(t.unitPrice.Floor);
    }
    assert Strip(fs[6]) == t.customerId && Strip(fs[7]) == t.region by {
      StripStripped(t.customerId);
      StripStripped(t.region);
    }
    ParseLineOfParts(line, fs, t);
  }

  /** Splitting the written line at '|' gives back its eight fields. */
  lemma SplitFields(t: Transaction)
    requires Writable(t) && t.unitPrice == t.unitPrice.Floor as real
    ensures Split(Join(Fields(t), '|'), '|') == Fields(t)
  {
    IntToStringClean(t.quantity);
    IntToStringClean(t.unitPrice.Floor);
    SplitJoin(Fields(t), '|');
  }

  /** A stripped field without commas survives strip() and replace(",", ""). */
  lemma TextBack(s: string)
    requires Stripped(s) && ',' !in s
    ensures Strip(s) == s && RemoveAll(Strip(s), ',') == s
  {
    StripStripped(s);
    RemoveAbsent(s, ',');
  }

  /** The quantity field written by str() is read back by int(). */
  lemma QuantityBack(n: int)
    ensures ParseInt(RemoveAll(Strip(IntToString(n)), ',')) == Some(n)
  {
    IntToStringClean(n);
    TextBack(IntToString(n));
    ParseIntRoundTrip(n);
  }

  /** A whole-number price written by str() is read back by float(). */
  lemma PriceBack(n: int)
    ensures ParseDecimal(RemoveAll(Strip(IntToString(n)), ',')) == Some(n as real)
  {
    IntToStringClean(n);
    TextBack(IntToString(n));
    ParseIntRoundTrip(n);
    ParseIntThenDecimal(IntToString(n), n);
  }

  /** ParseLine assembles the record from the eight converted parts. */
  lemma ParseLineOfParts(line: string, parts: seq<string>, t: Transaction)
    requires Split(line, '|') == parts && |parts| == 8
    requires Strip(parts[0]) == t.transactionId && Strip(parts[1]) == t.date
    requires Strip(parts[2]) == t.productId && RemoveAll(Strip(parts[3]), ',') == t.productName
    requires ParseInt(RemoveAll(Strip(parts[4]), ',')) == Some(t.quantity)
    requires ParseDecimal(RemoveAll(Strip(parts[5]), ',')) == Some(t.unitPrice)
    requires Strip(parts[6]) == t.customerId && Strip(parts[7]) == t.region
    ensures ParseLine(line) == Some(t)
  {
  }

  // ---------------------------------------------------------------------
  // clean_sales_data
  // ---------------------------------------------------------------------

  /** A record clean_sales_data keeps, with its stored Revenue. */
  datatype CleanRecord = CleanRecord(transaction: Transaction, revenue: real)

  /** The domain rules clean_sales_data applies on top of the conversion. */
  predicate PassesCleaning(t: Transaction) {
    && StartsWith(t.transactionId, 'T')
    && t.customerId != "" && t.region != ""
    && t.quantity > 0 && t.unitPrice > 0.0
  }

  /**
   * What clean_sales_data keeps of one raw line: the record parse_transactions
   * would make of it, when that record passes the domain rules.
   */
  function CleanLine(line: string): Option<Transaction> {
    match ParseLine(line)
    case None => None
    case Some(t) => if PassesCleaning(t) then Some(t) else None
  }

  /** Each kept record with Quantity * UnitPrice stored as its Revenue. */
  function WithRevenue(ts: seq<Transaction>): (rs: seq<CleanRecord>)
    ensures |rs| == |ts|
    ensures forall j :: 0 <= j < |ts| ==> rs[j] == CleanRecord(ts[j], Amount(ts[j]))
  {
    seq(|ts|, j requires 0 <= j < |ts| => CleanRecord(ts[j], Amount(ts[j])))
  }

  /** What one line adds to the result: its record with its revenue, or nothing. */
  function Kept(record: Option<Transaction>): seq<CleanRecord> {
    match record
    case Some(t) => [CleanRecord(t, Amount(t))]
    case None => []
  }

  /** The reference result of clean_sales_data: the kept records, in order, with their revenue. */
  function CleanAll(lines: seq<string>): seq<CleanRecord> {
    WithRevenue(FilterMap(lines, CleanLine))
  }

  /**
   * The body of clean_sales_data's loop for one line, with its checks in the
   * source's order: field count, TransactionID prefix, missing CustomerID or
   * Region, conversion, then positivity. None stands for a line counted as
   * invalid; the checks together amount to parsing and then the rules.
   */
  method CleanOne(line: string) returns (record: Option<Transaction>)
    ensures record == CleanLine(line)
  {
    var parts := Split(line, '|');
    if |parts| != 8 {
      return None;
    }
    var transactionId, date, productId := Strip(parts[0]), Strip(parts[1]), Strip(parts[2]);
    var productName, qty, unitPrice := Strip(parts[3]), Strip(parts[4]), Strip(parts[5]);
    var customerId, region := Strip(parts[6]), Strip(parts[7]);
    if !StartsWith(transactionId, 'T') {
      return None;
    }
    if customerId == "" || region == "" {
      return None;
    }
    productName := RemoveAll(productName, ',');
    var quantity := ParseInt(RemoveAll(qty, ','));
    var price := ParseDecimal(RemoveAll(unitPrice, ','));
    if quantity.None? || price.None? {
      return None;
    }
    if quantity.value <= 0 || price.value <= 0.0 {
      return None;
    }
    return Some(Transaction(transactionId, date, productId, productName,
                            quantity.value, price.value, customerId, region));
  }

  /**
   * clean_sales_data: one pass over the lines. It returns the kept records
   * and the number of rejected lines, which the source prints rather than
   * returns. Every line is either kept or counted.
   */
  method CleanSalesData(rawLines: seq<string>) returns (cleaned: seq<CleanRecord>, invalid: nat)
    ensures cleaned == CleanAll(rawLines)
    ensures invalid + |cleaned| == |rawLines|
  {
    cleaned, invalid := [], 0;
    for i := 0 to |rawLines|
      invariant cleaned == CleanAll(rawLines[..i])
      invariant invalid + |cleaned| == i
    {
      var record := CleanOne(rawLines[i]);
      CleanAllPrefix(rawLines, i);
      if record.None? {
        invalid := invalid + 1;
      }
      cleaned := cleaned + Kept(record);
    }
    assert rawLines[..|rawLines|] == rawLines;
  }

  /** One more line adds what that line keeps. */
  lemma CleanAllSnoc(lines: seq<string>, line: string)
    ensures CleanAll(lines + [line]) == CleanAll(lines) + Kept(CleanLine(line))
  {
    FilterMapSnoc(lines, line, CleanLine);
    KeptSnoc(FilterMap(lines, CleanLine), CleanLine(line));
  }

  lemma CleanAllPrefix(lines: seq<string>, i: nat)
    requires i < |lines|
    ensures CleanAll(lines[..i + 1]) == CleanAll(lines[..i]) + Kept(CleanLine(lines[i]))
  {
    assert lines[..i + 1] == lines[..i] + [lines[i]];
    CleanAllSnoc(lines[..i], lines[i]);
  }

  lemma KeptSnoc(ts: seq<Transaction>, record: Option<Transaction>)
    ensures WithRevenue(ts + (match record case Some(t) => [t] case None => [])) == WithRevenue(ts) + Kept(record)
  {
    if record.Some? {
      WithRevenueSnoc(ts, record.value);
    } else {
      assert ts + [] == ts;
    }
  }

  lemma WithRevenueSnoc(ts: seq<Transaction>, t: Transaction)
    ensures WithRevenue(ts + [t]) == WithRevenue(ts) + [CleanRecord(t, Amount(t))]
  {
    var a, b := WithRevenue(ts + [t]), WithRevenue(ts) + [CleanRecord(t, Amount(t))];
    assert |a| == |b|;
    forall j | 0 <= j < |a|
      ensures a[j] == b[j]
    {
      if j < |ts| {
        assert (ts + [t])[j] == ts[j];
      }
    }
  }

  /** Every record clean_sales_data keeps passes the rules and carries its own amount. */
  lemma CleanAllRules(lines: seq<string>)
    ensures forall r :: r in CleanAll(lines) ==>
      PassesCleaning(r.transaction) && r.revenue == Amount(r.transaction)
  {
    CleanAllIsParseThenRules(lines);
    var kept := Filter(ParseAll(lines), PassesCleaning);
    FilterExact(ParseAll(lines), PassesCleaning);
    forall r | r in CleanAll(lines)
      ensures PassesCleaning(r.transaction) && r.revenue == Amount(r.transaction)
    {
      var j :| 0 <= j < |CleanAll(lines)| && CleanAll(lines)[j] == r;
      assert kept[j] in kept;
    }
  }

  /**
   * clean_sales_data is parse_transactions followed by the domain rules:
   * its records are the parsed records that pass them, in the same order,
   * each with its revenue.
   */
  lemma CleanAllIsParseThenRules(lines: seq<string>)
    ensures CleanAll(lines) == WithRevenue(Filter(ParseAll(lines), PassesCleaning))
  {
    assert FilterMap(lines, CleanLine) == Filter(ParseAll(lines), PassesCleaning) by {
      CleanLineParses();
      FilterMapThenFilter(lines, ParseLine, CleanLine, PassesCleaning);
    }
  }

  lemma CleanLineParses()
    ensures forall x :: CleanLine(x) == match ParseLine(x) case None => None case Some(b) => if PassesCleaning(b) then Some(b) else None
  {
  }
}
