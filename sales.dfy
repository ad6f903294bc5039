/** The transaction record every component of the pipeline works on. */
module Sales {

  /**
   * One sales line after parsing: the eight pipe-delimited fields, with
   * Quantity as an integer and UnitPrice as an exact number.
   */
  datatype Transaction = Transaction(
    transactionId: string,
    date: string,
    productId: string,
    productName: string,
    quantity: int,
    unitPrice: real,
    customerId: string,
    region: string)

  /**
   * n * x for an integer n, spelled as repeated addition so that the
   * verifier meets a product only where a proof asks for one (through
   * TimesIsProduct).
   */
  function Times(n: int, x: real): real
    decreases if n < 0 then -n else n
  {
    if n == 0 then 0.0 else if n > 0 then Times(n - 1, x) + x else Times(n + 1, x) - x
  }

  lemma {:induction false} TimesIsProduct(n: int, x: real)
    ensures Times(n, x) == n as real * x
    decreases if n < 0 then -n else n
  {
    if n > 0 {
      TimesIsProduct(n - 1, x);
    } else if n < 0 {
      TimesIsProduct(n + 1, x);
    }
  }

  /** Quantity * UnitPrice: the amount of one transaction. */
  function Amount(t: Transaction): real {
    Times(t.quantity, t.unitPrice)
  }

  /** A positive quantity at a positive price is a positive amount. */
  lemma AmountPositive(t: Transaction)
    requires t.quantity > 0 && t.unitPrice > 0.0
    ensures Amount(t) > 0.0
  {
    TimesIsProduct(t.quantity, t.unitPrice);
  }
}
