/**
 * create_product_mapping and enrich_sales_data of utils/api_handler.py:
 * the product catalogue keyed by numeric id, and the four API fields
 * attached to a copy of every transaction.
 */
module Enrichment {
  import opened Options
  import opened Strings
  import opened Sales

  /**
   * The "id" of a product as the catalogue delivers it. int() accepts an
   * integer, a float (truncating it), a numeric string and a boolean;
   * MissingId stands for an absent key, None and every other value, on
   * which int() raises.
   */
  datatype ApiId = IntId(i: int) | FloatId(f: real) | TextId(text: string) | BoolId(b: bool) | MissingId

  /** A catalogue entry: its id and the four fields the mapping keeps (each may be None). */
  datatype ApiProduct = ApiProduct(
    id: ApiId,
    title: Option<string>,
    category: Option<string>,
    brand: Option<string>,
    rating: Option<real>)

  /** The value stored under a product's id. */
  datatype ProductInfo = ProductInfo(
    title: Option<string>,
    category: Option<string>,
    brand: Option<string>,
    rating: Option<real>)

  /** A transaction with the API fields added to its copy. */
  datatype EnrichedTransaction = EnrichedTransaction(
    record: Transaction,
    apiCategory: Option<string>,
    apiBrand: Option<string>,
    apiRating: Option<real>,
    apiMatch: bool)

  /** int(x) for a float: the integer part, rounded toward zero. */
  function Truncate(x: real): (n: int)
    ensures 0.0 <= x ==> n as real <= x < n as real + 1.0
    ensures x < 0.0 ==> n as real - 1.0 < x <= n as real
  {
    if 0.0 <= x then x.Floor else -((-x).Floor)
  }

  /** int(p["id"]), or None where it raises and the product is skipped. */
  function ConvertId(id: ApiId): Option<int> {
    match id
    case IntId(i) => Some(i)
    case FloatId(f) => Some(Truncate(f))
    case TextId(s) => ParseInt(s)
    case BoolId(b) => Some(if b then 1 else 0)
    case MissingId => None
  }

  function InfoOf(p: ApiProduct): ProductInfo {
    ProductInfo(p.title, p.category, p.brand, p.rating)
  }

  /** The reference mapping: products in order, each convertible one (over)writing its id's entry. */
  function Mapping(ps: seq<ApiProduct>): map<int, ProductInfo> {
    if ps == [] then map[]
    else
      var m := Mapping(ps[..|ps| - 1]);
      var p := ps[|ps| - 1];
      match ConvertId(p.id)
      case None => m
      case Some(k) => m[k := InfoOf(p)]
  }

  /** create_product_mapping: one pass, skipping the products whose id int() rejects. */
  method CreateProductMapping(apiProducts: seq<ApiProduct>) returns (mapping: map<int, ProductInfo>)
    ensures mapping == Mapping(apiProducts)
  {
    mapping := map[];
    for i := 0 to |apiProducts|
      invariant mapping == Mapping(apiProducts[..i])
    {
      var p := apiProducts[i];
      assert apiProducts[..i + 1][..i] == apiProducts[..i];
      var pid := ConvertId(p.id);
      if pid.Some? {
        mapping := mapping[pid.value := ProductInfo(p.title, p.category, p.brand, p.rating)];
      }
    }
    assert apiProducts[..|apiProducts|] == apiProducts;
  }

  /** The keys are exactly the ids int() accepts. */
  lemma {:induction false} MappingKeys(ps: seq<ApiProduct>)
    ensures forall k :: k in Mapping(ps) <==> exists i :: 0 <= i < |ps| && ConvertId(ps[i].id) == Some(k)
  {
    if ps != [] {
      var init := ps[..|ps| - 1];
      MappingKeys(init);
      forall k | k in Mapping(ps)
        ensures exists i :: 0 <= i < |ps| && ConvertId(ps[i].id) == Some(k)
      {
        if k in Mapping(init) {
          var i :| 0 <= i < |init| && ConvertId(init[i].id) == Some(k);
          assert ps[i] == init[i];
        } else {
          assert ConvertId(ps[|ps| - 1].id) == Some(k);
        }
      }
      forall k | exists i :: 0 <= i < |ps| && ConvertId(ps[i].id) == Some(k)
        ensures k in Mapping(ps)
      {
        var i :| 0 <= i < |ps| && ConvertId(ps[i].id) == Some(k);
        if i < |ps| - 1 {
          assert init[i] == ps[i];
        }
      }
    }
  }

  /** Of several products with the same id, the last one's title, category, brand and rating are kept. */
  lemma {:induction false} MappingLastWins(ps: seq<ApiProduct>, i: int, k: int)
    requires 0 <= i < |ps| && ConvertId(ps[i].id) == Some(k)
    requires forall j :: i < j < |ps| ==> ConvertId(ps[j].id) != Some(k)
    ensures k in Mapping(ps) && Mapping(ps)[k] == InfoOf(ps[i])
  {
    if i < |ps| - 1 {
      var init := ps[..|ps| - 1];
      assert init[i] == ps[i];
      MappingLastWins(init, i, k);
    }
  }

  // ---------------------------------------------------------------------
  // The product id of a transaction
  // ---------------------------------------------------------------------

  /**
   * The numeric part of a ProductID such as "P101": after stripping, a
   * first character P or p followed by one or more decimal digits.
   */
  function ExtractId(productId: string): Option<nat> {
    var s := Strip(productId);
    if |s| >= 2 && (s[0] == 'P' || s[0] == 'p') && AllDigits(s[1..]) then Some(DigitsValue(s[1..]))
    else None
  }

  /** "P" (or "p"), any leading zeros and the decimal spelling of n name product n. */
  lemma ExtractIdRoundTrip(c: char, z: string, n: nat)
    requires c == 'P' || c == 'p'
    requires forall i :: 0 <= i < |z| ==> z[i] == '0'
    ensures ExtractId([c] + z + NatToString(n)) == Some(n)
  {
    var digits := z + NatToString(n);
    var s := [c] + digits;
    assert [c] + z + NatToString(n) == s;
    LeadingZeros(z, NatToString(n));
    assert !IsSpace(s[|s| - 1]) by {
      assert s[|s| - 1] == digits[|digits| - 1];
      assert IsDigit(digits[|digits| - 1]);
    }
    StripStripped(s);
    assert s[1..] == digits;
  }

  /**
   * productId names product n: after stripping, a P or p, any number of
   * zeros, then n in decimal.
   */
  ghost predicate Spells(productId: string, n: nat) {
    exists c: char, z: string :: (c == 'P' || c == 'p') && (forall i :: 0 <= i < |z| ==> z[i] == '0')
      && Strip(productId) == [c] + z + NatToString(n)
  }

  /** Whatever is extracted was spelled that way: the converse of ExtractIdRoundTrip. */
  lemma ExtractIdSpelling(productId: string)
    requires ExtractId(productId).Some?
    ensures Spells(productId, ExtractId(productId).value)
  {
    var s := Strip(productId);
    var n := ExtractId(productId).value;
    var z := DigitsSpelling(s[1..]);
    assert s == [s[0]] + s[1..];
    assert s == [s[0]] + z + NatToString(n);
  }

  /** A product id yields n exactly when it spells n. */
  lemma ExtractIdExact(productId: string, n: nat)
    ensures ExtractId(productId) == Some(n) <==> Spells(productId, n)
  {
    if Spells(productId, n) {
      var c: char, z: string :| (c == 'P' || c == 'p') && (forall i :: 0 <= i < |z| ==> z[i] == '0')
        && Strip(productId) == [c] + z + NatToString(n);
      ExtractIdRoundTrip(c, z, n);
      StripIdempotent(productId);
    }
    if ExtractId(productId) == Some(n) {
      ExtractIdSpelling(productId);
    }
  }

  /** "P007" is product 7, while "P", "101" and "P-1" name no product. */
  lemma ExtractIdExamples()
    ensures ExtractId("P007") == Some(7)
    ensures ExtractId("P") == None
    ensures ExtractId("101") == None
    ensures ExtractId("P-1") == None
  {
    ExtractIdRoundTrip('P', "00", 7);
    assert NatToString(7) == "7";
    assert "P" + "00" + "7" == "P007";
    assert Strip("P") == "P" by { StripStripped("P"); }
    assert Strip("101") == "101" by { StripStripped("101"); }
    assert Strip("P-1") == "P-1" by { StripStripped("P-1"); }
    assert !IsDigit("P-1"[1]);
  }

  // ---------------------------------------------------------------------
  // enrich_sales_data
  // ---------------------------------------------------------------------

  /** The copy of one transaction with its four API fields. */
  function Enrich(t: Transaction, mapping: map<int, ProductInfo>): EnrichedTransaction {
    var pid := ExtractId(t.productId);
    if pid.Some? && pid.value in mapping then
      var info := mapping[pid.value];
      EnrichedTransaction(t, info.category, info.brand, info.rating, true)
    else
      EnrichedTransaction(t, None, None, None, false)
  }

  /** enrich_sales_data: one enriched copy per transaction, in order. */
  method EnrichSalesData(transactions: seq<Transaction>, productMapping: map<int, ProductInfo>)
    returns (enriched: seq<EnrichedTransaction>)
    ensures |enriched| == |transactions|
    ensures forall i :: 0 <= i < |transactions| ==> enriched[i] == Enrich(transactions[i], productMapping)
  {
    enriched := [];
    for i := 0 to |transactions|
      invariant |enriched| == i
      invariant forall q :: 0 <= q < i ==> enriched[q] == Enrich(transactions[q], productMapping)
    {
      var t := transactions[i];
      var pid := ExtractId(t.productId);
      var tx;
      if pid.Some? && pid.value in productMapping {
        var info := productMapping[pid.value];
        tx := EnrichedTransaction(t, info.category, info.brand, info.rating, true);
      } else {
        tx := EnrichedTransaction(t, None, None, None, false);
      }
      enriched := enriched + [tx];
    }
  }

  /**
   * Enriching against a catalogue: the copy keeps the transaction; it is
   * matched exactly when its ProductID spells an n that some catalogue
   * product's id converts to, and then carries the category, brand and
   * rating of the last such product; unmatched, the three fields are None.
   */
  lemma EnrichFromCatalogue(t: Transaction, ps: seq<ApiProduct>)
    ensures Enrich(t, Mapping(ps)).record == t
    ensures Enrich(t, Mapping(ps)).apiMatch <==>
      exists n: nat, i :: Spells(t.productId, n) && 0 <= i < |ps| && ConvertId(ps[i].id) == Some(n)
    ensures forall n: nat, i ::
      Spells(t.productId, n) && 0 <= i < |ps| && ConvertId(ps[i].id) == Some(n)
      && (forall j :: i < j < |ps| ==> ConvertId(ps[j].id) != Some(n)) ==>
      var e := Enrich(t, Mapping(ps));
      e.apiCategory == ps[i].category && e.apiBrand == ps[i].brand && e.apiRating == ps[i].rating
    ensures !Enrich(t, Mapping(ps)).apiMatch ==>
      var e := Enrich(t, Mapping(ps));
      e.apiCategory == None && e.apiBrand == None && e.apiRating == None
  {
    var e := Enrich(t, Mapping(ps));
    MappingKeys(ps);
    forall n: nat | Spells(t.productId, n)
      ensures ExtractId(t.productId) == Some(n)
    {
      ExtractIdExact(t.productId, n);
    }
    if ExtractId(t.productId).Some? {
      ExtractIdSpelling(t.productId);
    }
    forall n: nat, i | Spells(t.productId, n) && 0 <= i < |ps| && ConvertId(ps[i].id) == Some(n)
                       && (forall j :: i < j < |ps| ==> ConvertId(ps[j].id) != Some(n))
      ensures e.apiCategory == ps[i].category && e.apiBrand == ps[i].brand && e.apiRating == ps[i].rating
    {
      MappingLastWins(ps, i, n);
    }
  }
}
