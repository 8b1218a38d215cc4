/*
 * The discount strategies of the Strategy-pattern console program.
 *
 * The program's interface `IDiscountStrategy` has exactly three
 * implementations, so the family is modelled as one closed datatype whose
 * member function `CalculatePrice` is the interface's single operation.
 * Prices and parameters are C# `decimal`s, modelled as exact `real`s.
 * Nothing is validated: percentages above 100, negative amounts and
 * negative results are all ordinary values here, as in the program.
 */
module DiscountStrategies {

  /** One discount strategy. Its parameter is fixed when it is built and
      never changes afterwards, so a strategy is a plain immutable value. */
  datatype Strategy =
    | NoDiscount
    | Percentage(percentage: real)
    | Fixed(discountAmount: real)
  {
    /** The price a customer pays for an item that costs `originalPrice`.
        Each clause characterises one variant: no discount is the
        identity, a percentage discount keeps (100 - percentage) hundredths
        of the price, and a fixed discount plus the amount gives back the
        original price. */
    function CalculatePrice(originalPrice: real): (r: real)
      ensures NoDiscount? ==> r == originalPrice
      ensures Percentage? ==> 100.0 * r == originalPrice * (100.0 - percentage)
      ensures Fixed? ==> r + discountAmount == originalPrice
    {
      match this
      case NoDiscount => originalPrice
      case Percentage(pct) => originalPrice - originalPrice * pct / 100.0
      case Fixed(amount) => originalPrice - amount
    }
  }

  /** The two end points of the percentage scale: 0% charges the full price
      and 100% makes the item free, whatever its price. */
  lemma PercentageEndPoints(p: real)
    ensures Percentage(0.0).CalculatePrice(p) == p
    ensures Percentage(100.0).CalculatePrice(p) == 0.0
  {
  }

  /** The sign of a percentage-discounted price. Because nothing clamps the
      percentage, a positive price with more than 100% off is negative, and
      so is a negative price with less than 100% off; the result is zero
      exactly when the price is zero or the percentage is 100. */
  lemma PercentageSign(pct: real, p: real)
    ensures Percentage(pct).CalculatePrice(p) < 0.0
        <==> (p > 0.0 && pct > 100.0) || (p < 0.0 && pct < 100.0)
    ensures Percentage(pct).CalculatePrice(p) == 0.0 <==> p == 0.0 || pct == 100.0
  {
    var r := Percentage(pct).CalculatePrice(p);
    assert 100.0 * r == p * (100.0 - pct);
    ProductSign(p, 100.0 - pct);
  }

  /** Sign rules for a product of two reals. */
  lemma ProductSign(x: real, y: real)
    ensures x * y < 0.0 <==> (x > 0.0 && y < 0.0) || (x < 0.0 && y > 0.0)
    ensures x * y == 0.0 <==> x == 0.0 || y == 0.0
  {
  }

  /** With a percentage between 0 and 100 and a non-negative price, the
      discounted price lies between zero and the original price. */
  lemma PercentageWithinPrice(pct: real, p: real)
    requires 0.0 <= pct <= 100.0
    requires 0.0 <= p
    ensures 0.0 <= Percentage(pct).CalculatePrice(p) <= p
  {
  }

  /** On a positive price, a larger percentage always gives a strictly
      lower price. */
  lemma PercentageStrictlyAntitone(pct1: real, pct2: real, p: real)
    requires 0.0 < p
    requires pct1 < pct2
    ensures Percentage(pct2).CalculatePrice(p) < Percentage(pct1).CalculatePrice(p)
  {
  }

  /** Unless everything is taken off, the original price can be recovered
      from the discounted one: a percentage discount is invertible. */
  lemma PercentageRecoversOriginal(pct: real, p: real)
    requires pct != 100.0
    ensures Percentage(pct).CalculatePrice(p) * 100.0 / (100.0 - pct) == p
  {
    var r := Percentage(pct).CalculatePrice(p);
    var k := 100.0 - pct;
    assert r * 100.0 == p * k;
    calc {
      r * 100.0 / k;
      p * k / k;
      p;
    }
  }

  /** A percentage discount scales with the price: discounting a sum is the
      sum of the discounted parts, and discounting a multiple is the
      multiple of the discounted price. */
  lemma PercentageIsLinear(pct: real, a: real, b: real, k: real)
    ensures Percentage(pct).CalculatePrice(a + b)
         == Percentage(pct).CalculatePrice(a) + Percentage(pct).CalculatePrice(b)
    ensures Percentage(pct).CalculatePrice(k * a) == k * Percentage(pct).CalculatePrice(a)
  {
  }

  /** A fixed discount is not floored at zero: the result is negative
      exactly when the amount exceeds the price, and it is zero exactly
      when they are equal. */
  lemma FixedSign(amount: real, p: real)
    ensures Fixed(amount).CalculatePrice(p) < 0.0 <==> amount > p
    ensures Fixed(amount).CalculatePrice(p) == 0.0 <==> amount == p
  {
  }
}
