# Pricing-rule engine of a cash-register checkout, in Dafny

This project models the pricing-rule engine of the `org.yk` cash register
(Java). A `Checkout` holds a cart of scanned `CartItem`s and a list of
`PricingRule`s. Every `scan` appends the item and re-evaluates every rule over
the whole cart. A rule has conditions and actions:

- a condition compares a fact taken from the cart (an item's code, or the size
  of the working set) with a String, Integer or Double value, using one of six
  operators;
- an action rewrites the discount of the items the rule selected. FIXED_PRICE
  overwrites it. DISCOUNT_PERCENT adds to it.

Each rule narrows the full cart to a working set in three fixed stages. Each
stage uses the first condition of its type: CART_ITEM_CODE filters,
CART_ITEM_QUANTITY_TOTAL gates, and CART_ITEM_X_QUANTITY truncates. The
actions fire only inside the X_QUANTITY stage. `getCartTotal` sums
`price - discount`.

Files, one module each:

- `values.dfy` (`Values`): the closed `Value` type, Java `compareTo` on it, and
  an independent reference ordering (dictionary order on text) with the proofs
  that they agree.
- `results.dfy` (`Results`): `Option`, `Result`, and `Error`. `Error` holds one
  constructor per failure the engine can throw. `SubListOutOfRange(toIndex,
  size)` covers both exceptions of `subList(0, toIndex)`. A negative `toIndex`
  is the `IllegalArgumentException`, and one above `size` is the
  `IndexOutOfBoundsException`.
- `cart.dfy` (`Cart`): `CartItem`, `setDiscount`, and working sets. A working
  set is a strictly increasing list of cart positions.
- `pricing.dfy` (`Pricing`): conditions, actions, their builders,
  `evalCondition`, and `applyPricingRuleAction`.
- `engine.dfy` (`Engine`): the three stages, one rule, the rules loop, `scan`,
  and `getCartTotal`.

Behaviour that is modelled as the code does it, even where it is surprising:

- A rule without an X_QUANTITY condition never applies its actions.
- The operator of the X_QUANTITY condition is ignored.
- `Math.round(n/q)` rounds halves up. So a lone item under `X_QUANTITY 2` is
  selected, three or four items select nothing, and five or more make `subList`
  throw (`Engine.KeptCountTwoForOne`).
- A zero X_QUANTITY value rounds +Infinity to `Integer.MAX_VALUE`, which makes
  `subList` throw. A negative value selects nothing.
- Ordering operators on strings compare in dictionary order. They are not an
  error.
- A class mismatch throws. A code condition with a non-String value throws only
  when the cart is non-empty, because the stream filter never evaluates it
  otherwise.
- An exception stops the rules loop. The scanned item stays in the cart, and so
  do the discounts written by earlier rules (`Engine.Evaluated`,
  `Engine.Scanned`).
- Discounts have an upper clamp (the price) but no lower one. A FIXED_PRICE
  above the price stores a negative discount.
- Every scan re-applies every rule. DISCOUNT_PERCENT therefore accumulates
  across scans (`Engine.ReevaluationReappliesActions`, `Engine.PercentTwice`).
  FIXED_PRICE does not accumulate (`Engine.FixedPriceRuleIdempotent`).

## Model

| member | source | states |
|---|---|---|
| Cart.NewCartItem | src/main/java/org/yk/cart/CartItem.java:5-16 | a new item keeps the code, name, price and currency it was given and starts with discount 0, so its net price is its price |
| Cart.SetDiscount | src/main/java/org/yk/cart/CartItem.java:38-44 | the stored discount is the minimum of the requested discount and the price: never above either, equal to one of them, so the net price is never negative; a discount below the price (also a negative one) is stored unchanged; only the discount changes |
| Cart.SetDiscountIdempotent | src/main/java/org/yk/cart/CartItem.java:38-44 | setting the same discount twice equals setting it once, and the previous discount has no influence on the result |
| Values.StringCompareZero | src/main/java/org/yk/price/PricingRule.java:87-92 | on strings, compareTo is zero exactly when the strings are equal |
| Values.StringCompareNegative | src/main/java/org/yk/price/PricingRule.java:114-120 | on strings, compareTo is negative exactly when the first string precedes the second in dictionary order (a proper prefix, or smaller at the first difference) |
| Values.StringCompareAntisymmetric | src/main/java/org/yk/price/PricingRule.java:100-120 | swapping the strings negates compareTo |
| Values.LexLessIsStrictTotalOrder | src/main/java/org/yk/price/PricingRule.java:93-120 | the order the ordering operators use on text is irreflexive, asymmetric, transitive and total on distinct strings |
| Values.CompareToMeaning | src/main/java/org/yk/price/PricingRule.java:85-126 | for two values of one class, compareTo is zero exactly on equal values, negative exactly when the fact is below the condition value, positive exactly when above |
| Pricing.EvalCondition | src/main/java/org/yk/price/PricingRule.java:78-129 | a fact of another class than the condition value is an error naming both classes; otherwise the result is true exactly when the operator holds between fact and value under equality and the reference ordering |
| Pricing.OperatorDualities | src/main/java/org/yk/price/PricingRule.java:87-126 | for same-class operands all six operators succeed; EQUALS is equality; NOT_EQUALS negates EQUALS; GREATER_THAN negates LESS_THAN_EQUALS; LESS_THAN negates GREATER_THAN_EQUALS; each inclusive operator is its strict one or EQUALS; LESS_THAN and GREATER_THAN never both hold |
| Pricing.GreaterThanIsConverseLessThan | src/main/java/org/yk/price/PricingRule.java:100-120 | GREATER_THAN of x against y gives the same outcome as LESS_THAN of y against x |
| Pricing.TextOrderingIsDictionaryOrder | src/main/java/org/yk/price/PricingRule.java:100-120 | LESS_THAN and GREATER_THAN on two strings succeed, and decide dictionary order |
| Pricing.BuildCondition | src/main/java/org/yk/price/PricingRule.java:149-160 | a missing type is an error, else a missing value is an error, else the condition carries the given type and value, and the given operator or EQUALS when none was given |
| Pricing.BuildConditionRoundTrip | src/main/java/org/yk/price/PricingRule.java:149-160 | building from a condition's own fields gives back that condition; leaving out the operator gives the EQUALS version |
| Pricing.BuildAction | src/main/java/org/yk/price/PricingRule.java:212-220 | a missing type is an error, else a missing value is an error, else the action carries the given type and amount |
| Pricing.BuildActionRoundTrip | src/main/java/org/yk/price/PricingRule.java:212-220 | building from an action's own fields gives back that action |
| Pricing.ActOn | src/main/java/org/yk/price/PricingRule.java:231-256 | FIXED_PRICE v leaves discount price - v for v >= 0 and the full price for v < 0; DISCOUNT_PERCENT v leaves old discount + price*v/100 when that is within the price and the price otherwise; only the discount changes and it never exceeds the price |
| Pricing.FixedPriceOverwrites | src/main/java/org/yk/price/PricingRule.java:231-243 | FIXED_PRICE ignores the discount the item had, so applying it twice to an item equals applying it once |
| Pricing.ApplyAction | src/main/java/org/yk/price/PricingRule.java:228-259 | the cart keeps its length; each item of the working set gets the action; every other item is unchanged |
| Pricing.ActAll | src/main/java/org/yk/checkout/Checkout.java:130-133 | applying a rule's actions to one item keeps its code, name, price and currency; after at least one action the discount is capped by the price |
| Pricing.ActAllSplit | src/main/java/org/yk/checkout/Checkout.java:130-133 | the actions run one after another in declaration order: running s + t is running s, then t on its result |
| Pricing.ActionOrderMatters | src/main/java/org/yk/checkout/Checkout.java:130-133 | the order of a rule's actions matters: FIXED_PRICE 8 then DISCOUNT_PERCENT 10 leaves discount 3 on a 10.00 item, the reverse order leaves 2 |
| Pricing.ApplyActions | src/main/java/org/yk/checkout/Checkout.java:130-133 | applying a rule's actions in declaration order keeps the cart's length; each working-set item gets all the actions in turn; every other item is unchanged |
| Pricing.FixedPriceIdempotent | src/main/java/org/yk/price/PricingRule.java:231-243 | applying a FIXED_PRICE action twice to the same working set gives the same cart as applying it once |
| Engine.FirstOfType | src/main/java/org/yk/checkout/Checkout.java:62-64 | the result is absent exactly when no condition has the type; otherwise it is a condition of that type with no condition of that type before it |
| Engine.FilterByCode | src/main/java/org/yk/checkout/Checkout.java:69-71 | the filter fails exactly when some item is left to test and the condition value is not a String; otherwise it returns, in cart order, exactly the positions whose code satisfies the condition |
| Engine.CodeStage | src/main/java/org/yk/checkout/Checkout.java:61-78 | without a code condition the working set is the whole cart; with one it is exactly the positions whose code satisfies the first code condition, in cart order, and it fails exactly when the cart is non-empty and the value is not a String, with a class mismatch between String and the value's class |
| Engine.QuantityStage | src/main/java/org/yk/checkout/Checkout.java:80-99 | an empty working set, or no quantity condition, passes through; otherwise the working set is kept exactly when the condition holds of its size, emptied otherwise, and a non-Integer value fails with a class mismatch between Integer and the value's class |
| Engine.JavaRound | src/main/java/org/yk/checkout/Checkout.java:112-114 | for q > 0 the result r is the integer with r <= n/q + 1/2 < r + 1 (halves round up), it is at least 1 exactly when 2n >= q; for q < 0 the same bracket with r <= 0; for q = 0 Integer.MAX_VALUE (0 when n = 0) |
| Engine.KeptCount | src/main/java/org/yk/checkout/Checkout.java:112-128 | the kept count never exceeds n; it is 0 for q < 0 or when n/q rounds to 0; q = 0 with n items fails with subList bound -Integer.MAX_VALUE on size n; otherwise it is q - round(n/q), and it is an out-of-range error exactly when that lies outside [0, n] |
| Engine.KeptCountOneGroup | src/main/java/org/yk/checkout/Checkout.java:112-124 | exactly q items under X_QUANTITY q keep q - 1 |
| Engine.KeptCountTwoForOne | src/main/java/org/yk/checkout/Checkout.java:112-128 | under X_QUANTITY 2, one or two items keep one, three or four keep none, and five or more are an out-of-range error |
| Engine.KeptCountOutOfRange | src/main/java/org/yk/checkout/Checkout.java:117-124 | two items under X_QUANTITY 4 make subList fail with bound 3 on size 2 |
| Engine.XQuantityStage | src/main/java/org/yk/checkout/Checkout.java:101-128 | the result is a prefix of the working set; it is empty when there is no X_QUANTITY condition or nothing is left; a non-Integer value is a class-cast error; otherwise it has KeptCount items or fails as KeptCount does |
| Engine.XQuantityIgnoresOperator | src/main/java/org/yk/checkout/Checkout.java:107-124 | changing the operator of the X_QUANTITY condition does not change the stage's outcome |
| Engine.RuleTargets | src/main/java/org/yk/checkout/Checkout.java:61-128 | the selection is a prefix of the code-filtered working set ws, each item matching the first code condition; a failing code stage fails the rule; an empty ws selects nothing; a non-Integer quantity value fails and a quantity condition rejecting the size of ws selects nothing; past the gate, no X_QUANTITY condition selects nothing, a non-Integer one fails with a class-cast error, and X_QUANTITY q selects the first KeptCount(size of ws, q) items of ws or fails as KeptCount does |
| Engine.RuleTargetsDependOnlyOnCodes | src/main/java/org/yk/checkout/Checkout.java:56-78 | two carts with the same items apart from discounts get the same selection from any rule, so a rule's working set starts from the full cart whatever earlier rules did |
| Engine.ApplyRule | src/main/java/org/yk/checkout/Checkout.java:55-134 | a rule with null conditions changes nothing; otherwise the cart keeps its length and every item's code, name, price and currency; items the rule does not select are unchanged; selected items get all the actions; it fails exactly when the selection fails, with the selection's error, or a non-empty selection meets a null action list, with the missing-actions error |
| Engine.RuleWithoutXQuantityChangesNothing | src/main/java/org/yk/checkout/Checkout.java:107-134 | a rule with no X_QUANTITY condition leaves the cart unchanged whenever it does not fail |
| Engine.TwoForOneSelectsLoneItem | src/main/java/org/yk/checkout/Checkout.java:61-128 | the rule "code EQUALS c, X_QUANTITY 2" selects the only item with code c when there is exactly one |
| Engine.ReevaluationReappliesActions | src/main/java/org/yk/checkout/Checkout.java:34-37 | evaluating a rule a second time selects the same item again and applies the actions on top of the first pass's result |
| Engine.PercentTwice | src/main/java/org/yk/price/PricingRule.java:244-256 | a DISCOUNT_PERCENT action applied twice adds its amount twice while the total stays within the price |
| Engine.FixedPriceRuleIdempotent | src/main/java/org/yk/price/PricingRule.java:231-243 | a rule whose actions are all FIXED_PRICE gives the same cart when it is evaluated again |
| Engine.Evaluate | src/main/java/org/yk/checkout/Checkout.java:54-137 | the rules loop never adds, drops or reorders cart items and keeps their code, name, price and currency; it keeps every discount within its price when all were before |
| Engine.EvaluateSplits | src/main/java/org/yk/checkout/Checkout.java:54-137 | rules run in declaration order, each on the cart the previous ones left; a failure stops the loop and keeps the cart as it was at that point |
| Engine.EvaluateTouchesOnlyTargets | src/main/java/org/yk/checkout/Checkout.java:54-137 | an item whose state differs after evaluation was selected by some rule, where every rule's selection is computed on the original cart |
| Engine.EvaluateOneRule | src/main/java/org/yk/checkout/Checkout.java:55-134 | evaluating a list of one rule gives the cart of applying that rule with no failure, or the unchanged cart with that rule's error |
| Engine.EvaluateAppliesSelectedActions | src/main/java/org/yk/checkout/Checkout.java:54-137 | when no rule fails, each item ends up as the scanned item with exactly the actions of the rules that select it applied in rule order, and each rule's actions in declaration order |
| Engine.ApplyRuleFailureDependsOnlyOnCodes | src/main/java/org/yk/checkout/Checkout.java:56-134 | whether a rule fails, and with which error, is decided by the cart's codes alone, so earlier discounts never make a later rule fail |
| Engine.EvaluateSucceeds | src/main/java/org/yk/checkout/Checkout.java:54-137 | evaluation ends without failure exactly when every rule succeeds on the cart as scanned |
| Engine.EvaluateFirstFailure | src/main/java/org/yk/checkout/Checkout.java:54-137 | a failed evaluation carries the error of the first rule that fails on the cart as scanned, all earlier rules succeeding |
| Engine.EvaluateMeaning | src/main/java/org/yk/checkout/Checkout.java:54-137 | for the whole cart at once: evaluation succeeds exactly when every rule succeeds; without failure every item holds exactly the actions of the rules selecting it; an item that changed was selected by some rule |
| Engine.NewCheckout | src/main/java/org/yk/checkout/Checkout.java:23-26 | a new checkout has an empty cart and the given rules |
| Engine.Scan | src/main/java/org/yk/checkout/Checkout.java:34-38 | the cart grows by one with the new item last and earlier items keeping order and identity; the rules are unchanged; the resulting cart and failure are those of evaluating every rule over the appended cart; the scan fails exactly when some rule fails on the appended cart; without failure each item holds exactly the actions of the rules selecting it, applied in rule order; an item that changed was selected by some rule; discounts stay within prices when they were before |
| Engine.GetCartTotal | src/main/java/org/yk/checkout/Checkout.java:44-46 | the total is the sum of price - discount over the cart, that is the sum of prices less the sum of discounts, and it is not negative while every discount is within its price |
| Engine.NetTotalMeaning | src/main/java/org/yk/checkout/Checkout.java:44-46 | the total is the sum of prices minus the sum of discounts, and it is not negative while every discount is within its price |

## Left out

- The `org.yk.nextail` package and its test are left out. The package is an
  earlier draft that does not compile: its `Checkout` calls methods its
  `PricingRule` lacks, its action step is empty, and its total ignores
  discounts. Its test needs a rule configuration that is not in the
  repository.
- SLF4J logging and the `synchronized` modifier on `scan` are left out. They do
  not change the computed state.
- Prices, discounts and action amounts are exact `real`s, not IEEE doubles.
  Rounding of `price * v / 100`, the order of the total's summation, and
  `Double.compareTo`'s treatment of NaN and -0.0 are not modelled.
- Engine.JavaRound: the float quotient `(float) n / q` is taken as exact. Float
  rounding of the quotient, for very large carts next to a half, is not
  modelled.
- Integer condition values are unbounded `int`s rather than 32-bit. For 32-bit
  inputs no operation here overflows: `q - xq` is computed only when `xq > 0`,
  which needs `q >= 0`.
- Java object identity is not modelled. Cart entries are values, so the same
  `CartItem` instance scanned twice does not share one discount.
- Both builders return their own mutable instance (PricingRule.java:131-160,
  199-220), so a caller can change a condition or action after `build()`.
  This is not modelled: a built condition or action is immutable here.
- Nulls are left out apart from two lists, because the model's fields are
  never null. A null condition list skips the rule, and a null action list is
  `MissingActions`. The other nulls are not modelled:
  - A null scanned item throws on `getCode()` in `scan`'s log line before it is
    added (Checkout.java:35).
  - A null code throws only when a code condition evaluates it
    (PricingRule.java:79). The log line prints it as "null".
  - A null name is never read.
  - A null element of a condition or action list throws when the stream or loop
    reaches it.
- The null-discount branch of `getCartTotal` is left out. A discount is never
  null: it starts at 0.0, and `setDiscount(null)` would throw while unboxing.
- Condition values of classes other than String, Integer and Double are left
  out. So are the branches for values that are not `Comparable`. Every class in
  `Value` is `Comparable`, so those branches are dead.
- The null-value branch of `applyPricingRuleAction` (PricingRule.java:240-242,
  253-255) is left out. `build()` checks the value, but `addActionValue(null)`
  on the same builder afterwards clears it in the built action, and applying
  that action then throws "not a number". The model's actions always hold an
  amount, so that throw has no counterpart. The unknown-type branch (:257) is
  unreachable, because the type is checked by `build()` and is an enum with
  two values here.
- Text is compared by Dafny characters (Unicode scalar values). Java compares
  UTF-16 code units. The two orders differ only between supplementary
  characters and characters U+E000 to U+FFFF.
- `getCartItems` is the `items` field of `Engine.Checkout`.
