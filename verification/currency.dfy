/** The two display currencies and the fixed-rate conversion between them
    (data/Currency.kt). */
module Currencies {

  datatype Currency = BAM | EUR

  /** Convertible marks per euro: the fixed rate of the currency board. */
  const Rate: real := 1.96

  /** What `amount`, held in currency `c`, is worth in convertible marks.
      This is the yardstick conversion is judged against: converting must not
      change what an amount is worth. */
  function ValueInBam(c: Currency, amount: real): real
  {
    match c
    case BAM => amount
    case EUR => amount * Rate
  }

  /** `from.convert(amount, to)`: the identity for the same currency; otherwise
      BAM to EUR divides by the rate and EUR to BAM multiplies by it. Over the
      reals the result is the unique amount in `to` worth what `amount` is
      worth in `from`. */
  function Convert(amount: real, from: Currency, to: Currency): (r: real)
    ensures from == to ==> r == amount
    ensures ValueInBam(to, r) == ValueInBam(from, amount)
    ensures amount > 0.0 ==> r > 0.0
    ensures amount == 0.0 <==> r == 0.0
  {
    if from == to then amount
    else
      match from
      case BAM => amount / Rate
      case EUR => amount * Rate
  }

  /** The rate is applied as a divisor from marks to euros and as a
      multiplier from euros to marks. */
  lemma ConvertDirections(amount: real)
    ensures Convert(amount, BAM, EUR) == amount / 1.96
    ensures Convert(amount, EUR, BAM) == amount * 1.96
  {
  }

  /** Over the reals the two directions are exact inverses: there and back
      again gives the amount unchanged, whichever currency is first. */
  lemma RoundTrip(amount: real, x: Currency, y: Currency)
    ensures Convert(Convert(amount, x, y), y, x) == amount
  {
  }

  /** Conversion is linear: converting a sum is summing the conversions. */
  lemma ConvertAdditive(a: real, b: real, from: Currency, to: Currency)
    ensures Convert(a + b, from, to) == Convert(a, from, to) + Convert(b, from, to)
  {
  }
}
