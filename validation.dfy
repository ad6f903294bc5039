/**
 * validate_and_filter of utils/data_processor.py: the validation pass over
 * parsed records, then the optional region and amount filters, with the
 * summary of what each stage removed.
 */
module Validation {
  import opened Options
  import opened Strings
  import opened Seqs
  import opened Sales

  /** The filter_summary dictionary. */
  datatype FilterSummary = FilterSummary(
    totalInput: nat,
    invalid: nat,
    filteredByRegion: nat,
    filteredByAmount: nat,
    finalCount: nat)

  /**
   * The validation rules: no required text field is empty, the three IDs
   * carry their prefixes, and Quantity and UnitPrice are positive. (The
   * numeric fields of a parsed record are never missing, and int() and
   * float() of them cannot fail.)
   */
  predicate IsValid(t: Transaction) {
    && t.transactionId != "" && t.date != "" && t.productId != ""
    && t.productName != "" && t.customerId != "" && t.region != ""
    && StartsWith(t.transactionId, 'T')
    && StartsWith(t.productId, 'P')
    && StartsWith(t.customerId, 'C')
    && t.quantity > 0 && t.unitPrice > 0.0
  }

  /** The region filter runs only for a region that is given and non-empty (Python truthiness). */
  predicate RegionFilterActive(region: Option<string>) {
    region.Some? && region.value != ""
  }

  /** The amount filter runs when either bound is given. */
  predicate AmountFilterActive(minAmount: Option<real>, maxAmount: Option<real>) {
    minAmount.Some? || maxAmount.Some?
  }

  predicate RegionOk(t: Transaction, region: Option<string>) {
    !RegionFilterActive(region) || t.region == region.value
  }

  /** Both bounds are inclusive: a record is dropped only below the minimum or above the maximum. */
  predicate AmountOk(t: Transaction, minAmount: Option<real>, maxAmount: Option<real>) {
    && (minAmount.None? || !(Amount(t) < minAmount.value))
    && (maxAmount.None? || !(Amount(t) > maxAmount.value))
  }

  /** Everything a record must satisfy to be returned. */
  predicate Passes(t: Transaction, region: Option<string>, minAmount: Option<real>, maxAmount: Option<real>) {
    IsValid(t) && RegionOk(t, region) && AmountOk(t, minAmount, maxAmount)
  }

  function RegionIs(region: string): Transaction -> bool {
    (t: Transaction) => t.region == region
  }

  function WithinBounds(minAmount: Option<real>, maxAmount: Option<real>): Transaction -> bool {
    (t: Transaction) => AmountOk(t, minAmount, maxAmount)
  }

  function PassesAt(region: Option<string>, minAmount: Option<real>, maxAmount: Option<real>): Transaction -> bool {
    (t: Transaction) => Passes(t, region, minAmount, maxAmount)
  }

  /** The records that survive validation, in input order. */
  function ValidOnly(ts: seq<Transaction>): seq<Transaction> {
    Filter(ts, IsValid)
  }

  /** The region stage: a list comprehension when the filter is active, the identity otherwise. */
  function RegionStage(ts: seq<Transaction>, region: Option<string>): seq<Transaction> {
    if RegionFilterActive(region) then Filter(ts, RegionIs(region.value)) else ts
  }

  function AmountStage(ts: seq<Transaction>, minAmount: Option<real>, maxAmount: Option<real>): seq<Transaction> {
    if AmountFilterActive(minAmount, maxAmount) then Filter(ts, WithinBounds(minAmount, maxAmount)) else ts
  }

  /** The three stages in the source's order. */
  function Selected(ts: seq<Transaction>, region: Option<string>, minAmount: Option<real>, maxAmount: Option<real>): seq<Transaction> {
    AmountStage(RegionStage(ValidOnly(ts), region), minAmount, maxAmount)
  }

  /**
   * validate_and_filter: the filtered records, the number of invalid ones
   * and the summary. The records are the three stages applied in turn;
   * the summary counts the input, the invalid records, what each active
   * filter removed (0 for a skipped one) and the output, and these add up.
   */
  method ValidateAndFilter(transactions: seq<Transaction>, region: Option<string>,
                           minAmount: Option<real>, maxAmount: Option<real>)
    returns (filtered: seq<Transaction>, invalidCount: nat, summary: FilterSummary)
    ensures filtered == Selected(transactions, region, minAmount, maxAmount)
    ensures invalidCount == |transactions| - |ValidOnly(transactions)|
    ensures summary.totalInput == |transactions| && summary.invalid == invalidCount
    ensures summary.filteredByRegion ==
      |ValidOnly(transactions)| - |RegionStage(ValidOnly(transactions), region)|
    ensures summary.filteredByAmount ==
      |RegionStage(ValidOnly(transactions), region)| - |filtered|
    ensures !RegionFilterActive(region) ==> summary.filteredByRegion == 0
    ensures !AmountFilterActive(minAmount, maxAmount) ==> summary.filteredByAmount == 0
    ensures summary.finalCount == |filtered|
    ensures summary.totalInput ==
      summary.invalid + summary.filteredByRegion + summary.filteredByAmount + summary.finalCount
  {
    var valid: seq<Transaction> := [];
    invalidCount := 0;
    for i := 0 to |transactions|
      invariant valid == ValidOnly(transactions[..i])
      invariant invalidCount + |valid| == i
    {
      var t := transactions[i];
      FilterSnoc(transactions[..i], t, IsValid);
      assert transactions[..i + 1] == transactions[..i] + [t];
      if t.transactionId == "" || t.date == "" || t.productId == "" || t.productName == ""
         || t.customerId == "" || t.region == "" {
        invalidCount := invalidCount + 1;
        continue;
      }
      if !StartsWith(t.transactionId, 'T') {
        invalidCount := invalidCount + 1;
        continue;
      }
      if !StartsWith(t.productId, 'P') {
        invalidCount := invalidCount + 1;
        continue;
      }
      if !StartsWith(t.customerId, 'C') {
        invalidCount := invalidCount + 1;
        continue;
      }
      if t.quantity <= 0 || t.unitPrice <= 0.0 {
        invalidCount := invalidCount + 1;
        continue;
      }
      valid := valid + [t];
    }
    assert transactions[..|transactions|] == transactions;

    summary := FilterSummary(|transactions|, invalidCount, 0, 0, 0);
    filtered := valid;

    if RegionFilterActive(region) {
      var before := |filtered|;
      filtered := Filter(filtered, RegionIs(region.value));
      summary := summary.(filteredByRegion := before - |filtered|);
    }

    if AmountFilterActive(minAmount, maxAmount) {
      var before := |filtered|;
      filtered := Filter(filtered, WithinBounds(minAmount, maxAmount));
      summary := summary.(filteredByAmount := before - |filtered|);
    }

    summary := summary.(finalCount := |filtered|);
  }

  /**
   * The three stages are one filter with the conjunction of their tests, so
   * the output keeps the relative order of the input.
   */
  lemma SelectedIsOneFilter(ts: seq<Transaction>, region: Option<string>,
                            minAmount: Option<real>, maxAmount: Option<real>)
    ensures Selected(ts, region, minAmount, maxAmount) == Filter(ts, PassesAt(region, minAmount, maxAmount))
  {
    var v := ValidOnly(ts);
    var validInRegion := (t: Transaction) => IsValid(t) && RegionOk(t, region);
    if RegionFilterActive(region) {
      FilterFilter(ts, IsValid, RegionIs(region.value), validInRegion);
    } else {
      FilterFilter(ts, IsValid, (t: Transaction) => true, validInRegion);
      FilterAll(v, (t: Transaction) => true);
    }
    var r := RegionStage(v, region);
    assert r == Filter(ts, validInRegion);
    if AmountFilterActive(minAmount, maxAmount) {
      FilterFilter(ts, validInRegion, WithinBounds(minAmount, maxAmount), PassesAt(region, minAmount, maxAmount));
    } else {
      FilterFilter(ts, validInRegion, (t: Transaction) => true, PassesAt(region, minAmount, maxAmount));
      FilterAll(r, (t: Transaction) => true);
    }
  }

  /**
   * A record is returned iff it is in the input, is valid, is in the
   * requested region (when one is given) and has an amount within the
   * bounds; the output is a subsequence of the input.
   */
  lemma SelectedExact(ts: seq<Transaction>, region: Option<string>,
                      minAmount: Option<real>, maxAmount: Option<real>)
    ensures forall t :: t in Selected(ts, region, minAmount, maxAmount) <==>
      t in ts && IsValid(t) && RegionOk(t, region) && AmountOk(t, minAmount, maxAmount)
    ensures IsSubsequence(Selected(ts, region, minAmount, maxAmount), ts)
  {
    SelectedIsOneFilter(ts, region, minAmount, maxAmount);
    FilterExact(ts, PassesAt(region, minAmount, maxAmount));
  }

  /** Every returned record has a positive amount. */
  lemma SelectedAmountsPositive(ts: seq<Transaction>, region: Option<string>,
                                minAmount: Option<real>, maxAmount: Option<real>)
    ensures forall t :: t in Selected(ts, region, minAmount, maxAmount) ==> Amount(t) > 0.0
  {
    SelectedExact(ts, region, minAmount, maxAmount);
    forall t | t in Selected(ts, region, minAmount, maxAmount)
      ensures Amount(t) > 0.0
    {
      AmountPositive(t);
    }
  }

  /** A minimum above the maximum leaves nothing. */
  lemma CrossedBoundsEmpty(ts: seq<Transaction>, region: Option<string>, lo: real, hi: real)
    requires lo > hi
    ensures Selected(ts, region, Some(lo), Some(hi)) == []
  {
    SelectedIsOneFilter(ts, region, Some(lo), Some(hi));
    FilterNone(ts, PassesAt(region, Some(lo), Some(hi)));
  }

  /** Running validate_and_filter again on its own output with the same options changes nothing. */
  lemma SelectedIdempotent(ts: seq<Transaction>, region: Option<string>,
                           minAmount: Option<real>, maxAmount: Option<real>)
    ensures Selected(Selected(ts, region, minAmount, maxAmount), region, minAmount, maxAmount)
         == Selected(ts, region, minAmount, maxAmount)
  {
    var s := Selected(ts, region, minAmount, maxAmount);
    SelectedExact(ts, region, minAmount, maxAmount);
    SelectedIsOneFilter(s, region, minAmount, maxAmount);
    assert forall i :: 0 <= i < |s| ==> s[i] in s;
    FilterAll(s, PassesAt(region, minAmount, maxAmount));
  }
}
