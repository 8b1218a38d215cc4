/*
 * The context class of the pattern: a product that holds its name, its
 * original price and one discount strategy, and delegates the computation
 * of its final price to that strategy.
 */
module Products {
  import opened DiscountStrategies

  /** A product. Its name and price are get-only and its strategy is
      read-only in the program, so the constructor stores all three as
      given, with no check, and nothing changes them later. */
  datatype Product = Product(name: string, price: real, discountStrategy: Strategy)
  {
    /** The final price is whatever the stored strategy charges for the
        stored price. */
    function GetFinalPrice(): (r: real)
      ensures r == discountStrategy.CalculatePrice(price)
    {
      discountStrategy.CalculatePrice(price)
    }
  }

  /** A strategy that never raises a price: no discount, a percentage
      between 0 and 100, or a non-negative fixed amount. The program does
      not require this; it is the condition under which its final prices
      behave like discounts. */
  predicate IsProperDiscount(s: Strategy)
  {
    match s
    case NoDiscount => true
    case Percentage(pct) => 0.0 <= pct <= 100.0
    case Fixed(amount) => 0.0 <= amount
  }

  /** On a non-negative price, a proper discount never makes a product
      dearer, and a proper percentage discount never makes it cost less
      than nothing. A proper fixed discount can, since the program does not
      floor it. */
  lemma FinalPriceOfProperDiscount(product: Product)
    requires IsProperDiscount(product.discountStrategy)
    requires 0.0 <= product.price
    ensures product.GetFinalPrice() <= product.price
    ensures product.discountStrategy.Percentage? ==> 0.0 <= product.GetFinalPrice()
  {
  }

  /** Out-of-range parameters are accepted, not rejected: a 150% discount on
      a price of 100 gives -50, and a fixed discount of 50 on a price of 20
      gives -30. */
  lemma OutOfRangeDiscountsGoNegative(name: string)
    ensures Product(name, 100.0, Percentage(150.0)).GetFinalPrice() == -50.0
    ensures Product(name, 20.0, Fixed(50.0)).GetFinalPrice() == -30.0
  {
  }

  /** The three products the program builds, in the order it prints them. */
  function SampleProducts(): (ps: seq<Product>)
    ensures |ps| == 3
    ensures ps[0].price == 100.0 && ps[0].discountStrategy == NoDiscount
    ensures ps[1].price == 200.0 && ps[1].discountStrategy == Percentage(15.0)
    ensures ps[2].price == 300.0 && ps[2].discountStrategy == Fixed(50.0)
    ensures ps[0].GetFinalPrice() == 100.0
    ensures ps[1].GetFinalPrice() == 170.0
    ensures ps[2].GetFinalPrice() == 250.0
  {
    [ Product("Produto 1 - estratégia sem desconto", 100.0, NoDiscount),
      Product("Produto 2 - estratégia percentual", 200.0, Percentage(15.0)),
      Product("Produto 3 - estratégia desconto valor fixo", 300.0, Fixed(50.0)) ]
  }
}
