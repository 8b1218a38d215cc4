# Strategy-pattern discount pricing, in Dafny

This project models the pricing logic of StrategyPatternConsole, a small C#
program that shows the Strategy design pattern. A `Product` holds a name, an
original price and one discount strategy. Its final price is whatever that
strategy computes from the original price. There are three strategies:

- no discount, which charges the original price;
- a percentage discount, which charges `p - p * percentage / 100`;
- a fixed discount, which charges `p - amount`.

The program checks nothing. A percentage above 100, a fixed amount above the
price and a negative result are all ordinary values. The model keeps it that
way: no function (`CalculatePrice`, `GetFinalPrice`, `SampleProducts`)
requires anything of a price, a percentage or an amount. Where a lemma has a
`requires`, it is only the hypothesis of the property that lemma states.

How the C# maps to Dafny:

- The interface `IDiscountStrategy` and its three classes become the datatype
  `DiscountStrategies.Strategy`, one constructor per class. The interface
  method is the member function `CalculatePrice`. `NoDiscountStrategy` has
  no state at all. Each of the two parameterised classes (Program.cs:20-25,
  35-40) keeps its parameter in a `readonly` field set once by its
  constructor. So a strategy is an immutable value, and a Dafny function of
  it gives the same result every time it is called with the same price:
  repeated calls with the same price give the same result, by construction.
- `Product` becomes the datatype `Products.Product`. In C# its name and price
  are get-only properties and its strategy is a `readonly` field, all set by
  the constructor with no check. The datatype constructor stores its three
  arguments as given, and nothing can change them afterwards.
  `GetFinalPrice` hands the stored price to the stored strategy.
- C# `decimal` becomes Dafny `real`, so the arithmetic is exact.
- `Main` builds three sample products and prints their final prices. The
  function `Products.SampleProducts` builds the same three products. The
  printing is not modelled.

The two datatypes themselves, `DiscountStrategies.Strategy` (the strategy
constructors, Program.cs:22-25 and 37-40) and `Products.Product` (the product
constructor and its fields, Program.cs:49-60), are described in the list
above; the table below lists the functions and lemmas.

## Model

| member | source | states |
|---|---|---|
| `DiscountStrategies.Strategy.CalculatePrice` | Program.cs:5-46 | No discount returns the price unchanged. A percentage discount returns `(100 - percentage)` hundredths of the price. A fixed discount plus its amount gives back the original price. It is total: there is no precondition and no error case (decimal overflow is listed under "Left out"). |
| `DiscountStrategies.PercentageEndPoints` | Program.cs:27-30 | A 0% discount charges the full price, and a 100% discount charges 0, for every price. |
| `DiscountStrategies.PercentageSign` | Program.cs:27-30 | The percentage is not clamped. The result is negative exactly when a positive price gets more than 100% off or a negative price gets less than 100% off. The result is zero exactly when the price is zero or the percentage is 100. |
| `DiscountStrategies.PercentageWithinPrice` | Program.cs:27-30 | With a percentage in [0, 100] and a non-negative price, the result lies between 0 and the original price. |
| `DiscountStrategies.PercentageStrictlyAntitone` | Program.cs:27-30 | On a positive price, a larger percentage gives a strictly lower price. |
| `DiscountStrategies.PercentageRecoversOriginal` | Program.cs:27-30 | For any percentage other than 100, the original price can be recovered exactly: `result * 100 / (100 - percentage)`. |
| `DiscountStrategies.PercentageIsLinear` | Program.cs:27-30 | A percentage discount of a sum is the sum of the discounts of its parts, and a discount of `k * p` is `k` times the discount of `p`. |
| `DiscountStrategies.FixedSign` | Program.cs:42-45 | A fixed discount is not floored at zero. The result is negative exactly when the amount exceeds the price, and zero exactly when they are equal. |
| `Products.Product.GetFinalPrice` | Program.cs:49-65 | The final price is the stored strategy's price for the stored original price, as Program.cs:64 delegates it. |
| `Products.FinalPriceOfProperDiscount` | Program.cs:49-65 | On a non-negative price, no discount, a percentage in [0, 100] or a non-negative fixed amount never raises the final price above the original price. A percentage in that range also never makes the final price negative. |
| `Products.OutOfRangeDiscountsGoNegative` | Program.cs:55-65 | Out-of-range parameters are accepted and not rejected. A 150% discount on 100 gives -50, and a fixed discount of 50 on 20 gives -30. |
| `Products.SampleProducts` | Program.cs:72-79 | The three sample products are price 100 with no discount, price 200 with 15% off and price 300 with 50 off. Their final prices are 100, 170 and 250. |

## Left out

- Console output is not modelled. This covers the welcome line, the formatting of each product's name and final price, the exit prompt and the wait for a key press. It is I/O, and the values it prints are covered by `SampleProducts`.
- The `decimal` representation is not modelled. Prices are exact reals, so the model has no 28–29-digit precision, no rounding in `/ 100`, and no `OverflowException` from any decimal operation: the product and both subtractions at Program.cs:29 and 44 can overflow at the edge of the decimal range.
- Locale-dependent rendering of the final price is not modelled.
- Object identity is not modelled. A C# strategy object could in principle be shared by several products. Strategies have no mutable state, so sharing cannot be observed, and the model treats them as values.
- Products.Product: the strategy field is a closed datatype of the three strategies in the program. A null strategy is not modelled; in the program the constructor accepts it and `GetFinalPrice` then throws `NullReferenceException`. Other implementations of the public `IDiscountStrategy` interface are not modelled either.
