# Sales analytics pipeline — a verified Dafny model

This project models the core of a small sales-analytics program. The program
reads pipe-delimited sales lines such as

    T001|2024-12-01|P101|Laptop|2|45000|C001|North

and turns each into a transaction record with eight fields: TransactionID,
Date, ProductID, ProductName, Quantity, UnitPrice, CustomerID and Region. It
then validates and filters the records and computes several summaries:

- total revenue;
- sales per region, with each region's percentage share;
- the top-selling and the low-performing products;
- per-customer statistics;
- the daily trend and its peak day.

It can also attach product information from an external catalogue to each
transaction.

The model has one Dafny module per component. Each operation of the source
appears either as a function (pure logic) or as a method whose loop follows
the source's loop. Each method is proved equal to a reference function, and
lemmas prove the properties the program promises about those functions.

| file | module | what it holds |
|---|---|---|
| options.dfy | Options | `Option`, standing for Python's `None` or a value |
| sales.dfy | Sales | the `Transaction` record; `Amount` = Quantity × UnitPrice |
| strings.dfy | Strings | `str.strip`, `str.split`, `str.replace(",", "")`, `int()` / `float()` of a field, ordering of `str` |
| seqs.dfy | Seqs | sums, filters and permutations over sequences |
| sorting.dfy | Sorting | Python's stable `sorted` / `list.sort`, by a number (either direction) or by a string |
| parser.dfy | Parser | `parse_transactions`, `clean_sales_data` |
| validation.dfy | Validation | `validate_and_filter` and its filter summary |
| grouping.dfy | Grouping | `calculate_total_revenue`; the "add the key if missing, then update its entry" accumulation every summary uses |
| regions.dfy | RegionSales | `region_wise_sales` |
| products.dfy | ProductSales | `top_selling_products`, `low_performing_products` |
| customers.dfy | CustomerSales | `customer_analysis` |
| daily.dfy | DailySales | `daily_sales_trend`, `find_peak_sales_day` |
| enrichment.dfy | Enrichment | `create_product_mapping`, `enrich_sales_data`, the ProductID → number extraction |

Modelling choices:

- **Records.** A transaction record is a value of the datatype
  `Sales.Transaction`. Quantity is an `int`; UnitPrice is an exact `real`.
- **Dictionaries.** A Python `dict` built by a loop becomes a sequence of
  `(key, value)` pairs in insertion order. `Grouping.GroupKeys` gives the keys
  in the order they are first seen. `Grouping.Table` gives the finished
  dictionary for a per-key reference value.
- **Sets.** Python `set`s become Dafny `set<string>`.
- **Sorting.** `sorted(...)` and `list.sort(...)` become `Sorting.SortBy` (a
  numeric key, ascending or descending) and `Sorting.SortText` (a string
  key). Both are insertion sorts, proved to sort, to permute their input and,
  for `SortBy`, to be stable as Python's sort is.

## Model

| member | source | states |
|---|---|---|
| Strings.StripSlice | utils/data_processor.py:121-128 | the stripped field is a slice of the field; only whitespace was removed on either side, and the result starts and ends with a non-space |
| Strings.StripIdempotent | utils/data_processor.py:121-128 | stripping an already stripped field changes nothing |
| Strings.SplitCount | utils/data_processor.py:112-116 | `line.split("|")` has one more part than the line has `|` characters |
| Strings.SplitParts | utils/data_processor.py:112 | no part of a split contains the separator |
| Strings.JoinSplit | utils/data_processor.py:112 | joining the parts with `|` gives back the line |
| Strings.SplitJoin | utils/data_processor.py:112 | splitting a join of separator-free parts gives back the parts |
| Strings.RemoveAllCounts | utils/data_processor.py:131-136 | `replace(",", "")` removes exactly the commas; every other character keeps its count |
| Strings.ReadDigitsValue | utils/data_processor.py:135 | a digit string is read exactly when every character is an ASCII digit, and then to its decimal value |
| Strings.ParseIntRoundTrip | utils/data_processor.py:135 | the modelled `int()` reads the decimal spelling `str(n)` of every integer n back as n (no digit-count limit in the model; see Left out) |
| Strings.ParseIntAsciiSpace | utils/data_processor.py:135 | `int()` skips ASCII whitespace around an ASCII field: `" 5\t"` reads as 5 |
| Strings.ParseIntSeparatorNotSpace | utils/data_processor.py:125-137 | `strip()` removes U+001C from `"5\x1c"`, but `int()` rejects that text, so a Quantity such as `5\x1c,` (stripped, then its comma removed) drops the line |
| Strings.ParseIntWideSpace | utils/data_processor.py:135 | `int()` skips whitespace outside ASCII (`"5\u2000"` reads as 5), but U+001C..U+001F stay unskipped even in a non-ASCII text (`"5\x1c\u2000"` is rejected) |
| Strings.ParseIntThenDecimal | utils/data_processor.py:135-136 | a field that `int()` accepts is read by `float()` as the same number |
| Strings.StrLtIrreflexive | utils/data_processor.py:426 | the ordering Python uses for `str` is irreflexive |
| Strings.StrLtTransitive | utils/data_processor.py:426 | the `str` ordering is transitive |
| Strings.StrLtTotal | utils/data_processor.py:426 | any two different strings are ordered one way or the other |
| Sorting.SortByCorrect | utils/data_processor.py:321 | the result is ordered by key (either direction), is a permutation of the input, and entries with equal keys keep their input order |
| Sorting.SortTextCorrect | utils/data_processor.py:426 | the result is ordered ascending by its string key and is a permutation of the input |
| Sorting.SortTextIncreasing | utils/data_processor.py:426 | when keys are distinct, sorting by them makes them strictly increasing |
| Parser.ParseTransactions | utils/data_processor.py:109-152 | the loop returns exactly `ParseAll` of the lines |
| Parser.ParseAllExact | utils/data_processor.py:111-150 | one record per accepted line, in line order; a line is accepted iff it has 8 fields and its Quantity and UnitPrice convert |
| Parser.ParseLineFields | utils/data_processor.py:118-131 | every text field of a parsed record except ProductName is stripped (ProductName is stripped before its commas are removed, so it may end in a space); ProductName has no comma; no field holds a `|` |
| Parser.ParseAllFields | utils/data_processor.py:111-150 | every record `parse_transactions` returns has every text field but ProductName stripped, a comma-free ProductName, and no `|` in any field |
| Parser.ParseLineSeparators | utils/data_processor.py:112-116 | an accepted line holds exactly seven `|` characters |
| Parser.ParseLineRoundTrip | utils/data_processor.py:111-150 | writing a record as a pipe-delimited line and parsing it gives it back (fields stripped, free of `|` and `,`, whole-number price) |
| Parser.CleanOne | utils/data_processor.py:26-71 | one line gives the same record as parsing it, or nothing when the parse or a cleaning rule fails |
| Parser.CleanSalesData | utils/data_processor.py:21-89 | the kept records are `CleanAll` of the lines; invalid count plus kept count equals the number of lines |
| Parser.CleanAllRules | utils/data_processor.py:45-83 | every kept record has a TransactionID starting with `T`, a non-empty CustomerID and Region, Quantity > 0, UnitPrice > 0, and Revenue = Quantity × UnitPrice |
| Parser.CleanAllIsParseThenRules | utils/data_processor.py:25-83 | cleaning is parsing followed by an order-keeping filter on the domain rules |
| Validation.ValidateAndFilter | utils/data_processor.py:182-274 | returns the selected records and the invalid count; the summary's totals add up (input = invalid + removed by region + removed by amount + final); a filter that is off removes nothing |
| Validation.SelectedIsOneFilter | utils/data_processor.py:237-268 | validation, the region filter and the amount filter together are one filter on their combined test |
| Validation.SelectedExact | utils/data_processor.py:185-268 | a record is returned iff it is an input that is valid, in the region (when the filter is on) and within the inclusive bounds; input order is kept |
| Validation.SelectedAmountsPositive | utils/data_processor.py:210-216 | every returned record has a positive amount |
| Validation.CrossedBoundsEmpty | utils/data_processor.py:253-261 | min_amount greater than max_amount returns nothing |
| Validation.SelectedIdempotent | utils/data_processor.py:185-268 | validating and filtering the result again with the same options changes nothing |
| Grouping.CalculateTotalRevenue | utils/data_processor.py:277-284 | the loop returns the sum of Quantity × UnitPrice over all records |
| Grouping.RevenueLaws | utils/data_processor.py:277-284 | total revenue adds over concatenation and does not depend on record order |
| Grouping.GroupKeysExact | utils/data_processor.py:303-308 | a summary's keys are distinct and are exactly the values the key field takes in the records |
| Grouping.GroupSizes | utils/data_processor.py:371-381 | a key occurs iff its count is at least 1; a key's distinct second values number at least 1 and at most its count |
| Grouping.ValuesWhereExact | utils/data_processor.py:376-381 | a key's set of second values holds exactly the values seen with that key |
| Grouping.UpsertStep | utils/data_processor.py:303-311 | one step of "create the entry if missing, then update it" keeps every entry equal to its key's reference value over the records seen so far |
| Grouping.TableRows | utils/data_processor.py:303-311 | the finished dictionary has the keys in first-seen order, each once, each with its reference value |
| RegionSales.AddSaleStep | utils/data_processor.py:296-311 | one iteration of the region loop keeps each region's total and count exact |
| RegionSales.AggregateRegions | utils/data_processor.py:293-311 | the accumulation pass leaves one entry per region, in first-seen order, holding that region's total sales and transaction count (percentage still 0) |
| RegionSales.TablePercentages | utils/data_processor.py:313-318 | with positive total revenue the percentages of the unsorted region table add up to 100 |
| RegionSales.AccumulatedTable | utils/data_processor.py:313-318 | adding percentages to the accumulated table gives the reference region table |
| RegionSales.RegionWiseSales | utils/data_processor.py:286-322 | the method returns `RegionSummary`: the region table sorted by total_sales descending |
| RegionSales.RegionSummaryRows | utils/data_processor.py:293-322 | one row per region that occurs, each once, holding its total sales, transaction count and percentage share |
| RegionSales.RegionSummaryOrder | utils/data_processor.py:321 | total_sales does not increase down the result |
| RegionSales.RegionTableTotals | utils/data_processor.py:296-311 | in the unsorted table, counts add up to the number of records and sales to the total revenue |
| RegionSales.RegionSummaryTotals | utils/data_processor.py:291-322 | transaction counts add up to the number of records and sales to the total revenue; without positive revenue every percentage is 0 |
| RegionSales.RegionPercentagesSum | utils/data_processor.py:313-318 | with positive total revenue the percentages add up to 100 |
| ProductSales.AddUnitsStep | utils/data_processor.py:332-344 | one iteration of the product loop keeps each product's quantity and revenue exact |
| ProductSales.AggregateProducts | utils/data_processor.py:329-344 | the loop builds the product table: per ProductName, its total quantity and total revenue |
| ProductSales.TopSellingProducts | utils/data_processor.py:324-353 | the method returns `TopProducts`: the first n rows of the table sorted by quantity descending |
| ProductSales.RankedRows | utils/data_processor.py:329-350 | the ranked list has one row per product, each once, with its totals |
| ProductSales.RankedOrder | utils/data_processor.py:350 | total quantity does not increase down the ranked list |
| ProductSales.TopProductsRows | utils/data_processor.py:347-353 | for n ≥ 0 the result has min(n, number of products) rows, is a prefix of the ranked list, and every row is correct |
| ProductSales.TopProductsOrder | utils/data_processor.py:350-353 | quantities do not increase down the result, and no product left out sold more units than a product shown |
| ProductSales.TopProductsStable | utils/data_processor.py:350-353 | among products with equal quantity, the ones shown are the first seen |
| ProductSales.LowPerformingProducts | utils/data_processor.py:443-476 | the method returns `LowProducts`: the rows under the threshold sorted by quantity ascending |
| ProductSales.LowProductsExact | utils/data_processor.py:449-471 | a row is returned iff its product occurs, the row holds the product's totals, and the quantity is below the threshold; names are distinct |
| ProductSales.LowProductsKeys | utils/data_processor.py:467-471 | a product name is listed iff it occurs and its total quantity is below the threshold |
| ProductSales.LowProductsOrder | utils/data_processor.py:474 | quantities do not decrease down the result, and products with equal quantity keep first-seen order |
| ProductSales.QuantityAtLeastCount | utils/data_processor.py:452-464 | when every quantity is positive, a product's total quantity is at least its number of records |
| ProductSales.LowProductsEmpty | utils/data_processor.py:467-471 | with positive quantities and a threshold of at most 1, no product is low-performing |
| CustomerSales.SortedList | utils/data_processor.py:388 | `sorted(list(s))` of a set holds its elements once each, in strictly increasing order |
| CustomerSales.AddPurchaseStep | utils/data_processor.py:363-381 | one iteration of the customer loop keeps each customer's spend, count and product set exact |
| CustomerSales.AggregateCustomers | utils/data_processor.py:360-381 | the loop builds the per-customer table of spend, purchase count and the set of products bought |
| CustomerSales.FinishedTable | utils/data_processor.py:384-388 | finishing every entry (average, sorted product list) gives the reference customer table |
| CustomerSales.CustomerAnalysis | utils/data_processor.py:355-392 | the method returns `CustomerSummary`: the finished table sorted by total_spent descending |
| CustomerSales.CustomerSummaryRows | utils/data_processor.py:360-392 | one row per customer that occurs, each once, with its statistics |
| CustomerSales.CustomerSummaryOrder | utils/data_processor.py:391 | total_spent does not increase down the result |
| CustomerSales.CustomerAverage | utils/data_processor.py:384-387 | a listed customer has at least one purchase, and avg_order_value × purchase_count = total_spent |
| CustomerSales.CustomerProducts | utils/data_processor.py:376-388 | products_bought is strictly increasing, holds exactly the products the customer bought, and is no longer than purchase_count |
| CustomerSales.CustomerSummaryTotals | utils/data_processor.py:363-381 | purchase counts add up to the number of records and spend to the total revenue |
| DailySales.AddSaleStep | utils/data_processor.py:402-419 | one iteration of the daily loop keeps each date's revenue, count and customer set exact |
| DailySales.AggregateDays | utils/data_processor.py:399-419 | the loop builds the per-date table of revenue, count and set of customers |
| DailySales.DailySalesTrend | utils/data_processor.py:394-427 | the method returns `Trend`: each customer set replaced by its size, rows sorted by date string |
| DailySales.TrendRows | utils/data_processor.py:399-427 | one row per date that occurs, each once, holding that date's statistics |
| DailySales.TrendIncreasing | utils/data_processor.py:426 | dates are strictly increasing as strings |
| DailySales.TrendTotals | utils/data_processor.py:402-419 | counts add up to the number of records and revenues to the total revenue |
| DailySales.DayCustomers | utils/data_processor.py:414-423 | unique_customers is the number of distinct CustomerIDs on that date, between 1 and the date's transaction count |
| DailySales.TrendEmpty | utils/data_processor.py:434-437 | the trend is empty exactly when there are no records |
| DailySales.FirstPeak | utils/data_processor.py:439-440 | `max` by revenue picks a row no other row exceeds, and every earlier row has strictly less revenue |
| DailySales.FindPeakSalesDay | utils/data_processor.py:429-441 | the method returns `PeakDay`; the result is ("", 0.0, 0) exactly when there are no records |
| DailySales.PeakDayCorrect | utils/data_processor.py:429-441 | with records, the peak is an occurring date with its own revenue and count; no date has more revenue, and every earlier date has less |
| Enrichment.Truncate | utils/api_handler.py:63 | `int()` of a float rounds toward zero: the result is within 1 of the input, on the zero side |
| Enrichment.CreateProductMapping | utils/api_handler.py:59-73 | the loop returns `Mapping` of the catalogue |
| Enrichment.MappingKeys | utils/api_handler.py:61-71 | the keys are exactly the ids `int()` accepts |
| Enrichment.MappingLastWins | utils/api_handler.py:61-69 | for a repeated id, the last product's title, category, brand and rating are stored |
| Enrichment.ExtractIdRoundTrip | utils/api_handler.py:87-90 | `P` or `p`, any leading zeros and the decimal spelling of n give n |
| Enrichment.ExtractIdSpelling | utils/api_handler.py:87-90 | conversely, whenever a number is extracted, the stripped ProductID is `P` or `p`, some zeros and the decimal spelling of that number |
| Enrichment.ExtractIdExact | utils/api_handler.py:87-90 | a ProductID yields n exactly when, stripped, it is `P` or `p`, some zeros and the decimal spelling of n |
| Enrichment.ExtractIdExamples | utils/api_handler.py:87-90 | "P007" gives 7; "P", "101" and "P-1" give nothing |
| Enrichment.EnrichSalesData | utils/api_handler.py:80-108 | one enriched copy per transaction, in order |
| Enrichment.EnrichFromCatalogue | utils/api_handler.py:59-104 | for every transaction: the copy keeps the transaction; it matches iff its ProductID spells (stripped, `P`/`p`, zeros, decimal) an n that some catalogue product's id converts to, and then carries the category, brand and rating of the last such product; unmatched, the three fields are None |

## Left out

- Console output is not modelled: the `print` calls in `clean_sales_data` and `validate_and_filter` (the available regions, the amount range, the counts).
- `fetch_all_products` (utils/api_handler.py:9-53) is not modelled: it makes HTTP requests and decodes JSON. The catalogue is a parameter (`Enrichment.ApiProduct` values).
- `save_enriched_data` is not modelled: it creates directories, writes files and formats values with Python's `str()`.
- The file reading and report writing modules and the command-line driver are not part of this model.
- Floating point is not modelled. UnitPrice and every amount are exact reals, so the rounding of `+=` and the order-dependence of float sums are absent.
- Number parsing: `float()` is modelled for digits with an optional single `.`, an optional sign and surrounding whitespace. Exponents, `inf`, `nan` and underscores are not accepted, and `int()` accepts only ASCII digits. The whitespace `int()` and `float()` skip is modelled by `Strings.NumberText`: the `str.isspace()` characters except U+001C..U+001F, at either end, whether or not the text is ASCII. So `int("5\x1c")` fails although `strip()` would remove `\x1c`.
- Strings.ParseInt and Enrichment.ExtractId accept digit strings of any length. CPython 3.11 and later raise `ValueError` from `int()` on a decimal string of more than 4300 digits (and from `str()` on such an integer), so there `parse_transactions` skips the line, `clean_sales_data` counts it invalid and `enrich_sales_data` leaves the product unmatched. Strings.ParseIntRoundTrip is about the modelled `int()` and holds without that limit.
- Default arguments become required parameters: `n = 5` of `top_selling_products` (utils/data_processor.py:324) and `threshold = 10` of `low_performing_products` (utils/data_processor.py:443) are passed explicitly to `ProductSales.TopSellingProducts` and `ProductSales.LowPerformingProducts`.
- `Enrichment.ExtractId` accepts only ASCII digits after the letter. Python's `str.isdigit` also accepts other Unicode digits; `int()` then reads some of them and rejects others.
- Enrichment.ConvertId: the catalogue's id can be an integer, a float, a string, a boolean or missing. Any other JSON value is treated as missing, because `int()` raises on it.
- Validation.ValidateAndFilter: records are values, so the method cannot write the scratch key `_Amount` into its input records. In the source, valid records that a filter removes keep that key afterwards. The model recomputes the amount as Quantity × UnitPrice where it is needed.
- Records are typed values. A missing key and a non-numeric Quantity or UnitPrice cannot arise, so the `try`/`except` branches in the summaries never skip a record for those reasons. The same holds for `validate_and_filter`'s checks for a missing or `None` field, except for the empty-string checks, which are modelled.
- Parser.CleanSalesData, Validation.ValidateAndFilter, Grouping.CalculateTotalRevenue, RegionSales.RegionWiseSales, ProductSales.TopSellingProducts, CustomerSales.CustomerAnalysis, DailySales.DailySalesTrend, ProductSales.LowPerformingProducts: Quantity × UnitPrice is exact here. In Python, `int * float` raises `OverflowError` when the integer is too large for a float (about 309 digits or more). The summaries (utils/data_processor.py:281, 299, 336, 367, 406, 456) catch it and skip that record, which the model counts. `clean_sales_data` (utils/data_processor.py:71) and `validate_and_filter` (utils/data_processor.py:215) multiply outside any `try`, so the whole call raises, where the model returns normally.
- `dict(sorted_items)` and the in-place `list.sort` are modelled on values: a new sequence of pairs, with no aliasing.
- `low_performing_products` builds its own product table (utils/data_processor.py:449-464). That table is computed exactly as in `top_selling_products`, so both share `ProductSales.AggregateProducts`.
- ProductSales.LowProductsEmpty: stated for thresholds of at most 1, which covers every threshold ≤ 0. Every listed product has a total quantity of at least 1 when all quantities are positive.
