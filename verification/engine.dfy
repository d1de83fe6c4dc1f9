/**
 The checkout (Checkout.java): scanning appends an item and re-evaluates every
 pricing rule over the whole cart; the total is the sum of the net prices.

 A rule narrows the cart to a working set in three fixed stages, each driven
 by the FIRST condition of its type in the rule's list:
   1. CART_ITEM_CODE keeps the items whose code satisfies the condition;
   2. CART_ITEM_QUANTITY_TOTAL keeps the whole working set or empties it;
   3. CART_ITEM_X_QUANTITY truncates the working set, and only here are the
      rule's actions applied.
 Every rule starts again from the full cart.
 */
module Engine {
  import opened Values
  import opened Results
  import opened Cart
  import opened Pricing

  /** `Integer.MAX_VALUE`, what `Math.round` gives for positive infinity. */
  const IntMax: int := 0x7fff_ffff

  // ---------------------------------------------------------------------------
  // Condition lookup

  /** `conditions.stream().filter(c -> c.getConditionType() == kind).findFirst()` */
  function FirstOfType(conds: seq<Condition>, kind: ConditionType): (r: Option<Condition>)
    ensures r.None? <==> forall i :: 0 <= i < |conds| ==> conds[i].kind != kind
    ensures r.Some? ==> exists i :: 0 <= i < |conds| && conds[i] == r.value
                                 && r.value.kind == kind
                                 && forall j :: 0 <= j < i ==> conds[j].kind != kind
  {
    if |conds| == 0 then None
    else if conds[0].kind == kind then Some(conds[0])
    else
      var r := FirstOfType(conds[1..], kind);
      assert r.Some? ==> exists i :: 0 <= i < |conds| && conds[i] == r.value
                                 && r.value.kind == kind
                                 && forall j :: 0 <= j < i ==> conds[j].kind != kind by {
        if r.Some? {
          var i :| 0 <= i < |conds[1..]| && conds[1..][i] == r.value && r.value.kind == kind
                   && forall j :: 0 <= j < i ==> conds[1..][j].kind != kind;
          assert conds[i + 1] == r.value;
          forall j | 0 <= j < i + 1
            ensures conds[j].kind != kind
          {
            if j > 0 {
              assert conds[j] == conds[1..][j - 1];
            }
          }
        }
      }
      r
  }

  // ---------------------------------------------------------------------------
  // Stage 1: CART_ITEM_CODE

  /** The codes of the cart's items, in cart order: all a rule looks at. */
  function Codes(cart: Cart): (codes: seq<string>)
    ensures |codes| == |cart|
    ensures forall i :: 0 <= i < |cart| ==> codes[i] == cart[i].code
  {
    seq(|cart|, i requires 0 <= i < |cart| => cart[i].code)
  }

  /** Whether a code passes a code condition. */
  ghost predicate CodeMatches(c: Condition, code: string) {
    Holds(c.op, Text(code), c.value)
  }

  /** The stream filter over the cart positions `from..`: positions whose code
      satisfies `c`, in cart order. A non-string condition value fails on the
      first item evaluated, so only when some item remains. */
  function FilterByCode(codes: seq<string>, c: Condition, from: nat): (r: Result<seq<nat>>)
    requires from <= |codes|
    ensures r.Err? <==> from < |codes| && ClassOf(c.value) != StringClass
    ensures r.Err? ==> r.error == ClassMismatch(StringClass, ClassOf(c.value))
    ensures r.Ok? ==> IsSelection(r.value, |codes|)
    ensures r.Ok? ==> forall k :: 0 <= k < |r.value| ==> from <= r.value[k]
    ensures r.Ok? ==> forall i :: from <= i < |codes| ==> (i in r.value <==> CodeMatches(c, codes[i]))
    decreases |codes| - from
  {
    if from == |codes| then Ok([])
    else
      match EvalCondition(c, Text(codes[from]))
      case Err(e) => Err(e)
      case Ok(keep) =>
        match FilterByCode(codes, c, from + 1)
        case Err(e) => Err(e)
        case Ok(rest) => Ok(if keep then [from] + rest else rest)
  }

  /** Stage 1: the full cart, or the items passing the first code condition. */
  function CodeStage(codes: seq<string>, conds: seq<Condition>): (r: Result<seq<nat>>)
    ensures r.Ok? ==> IsSelection(r.value, |codes|)
    ensures FirstOfType(conds, CartItemCode).None? ==> r == Ok(AllPositions(|codes|))
    ensures FirstOfType(conds, CartItemCode).Some? ==>
              var c := FirstOfType(conds, CartItemCode).value;
              && (r.Err? <==> |codes| > 0 && !c.value.Text?)
              && (r.Err? ==> r.error == ClassMismatch(StringClass, ClassOf(c.value)))
              && (r.Ok? ==> forall i :: 0 <= i < |codes| ==> (i in r.value <==> CodeMatches(c, codes[i])))
  {
    match FirstOfType(conds, CartItemCode)
    case None => Ok(AllPositions(|codes|))
    case Some(c) => FilterByCode(codes, c, 0)
  }

  // ---------------------------------------------------------------------------
  // Stage 2: CART_ITEM_QUANTITY_TOTAL

  /** Stage 2: a non-empty working set survives when the condition holds of its
      size (an Integer fact), and is emptied otherwise. */
  function QuantityStage(ws: seq<nat>, cond: Option<Condition>): (r: Result<seq<nat>>)
    ensures ws == [] || cond.None? ==> r == Ok(ws)
    ensures r.Ok? ==> r.value == ws || r.value == []
    ensures ws != [] && cond.Some? ==>
              && (r.Err? <==> !cond.value.value.Int?)
              && (r.Err? ==> r.error == ClassMismatch(IntegerClass, ClassOf(cond.value.value)))
              && (r.Ok? ==> (r.value == ws <==> Holds(cond.value.op, Int(|ws|), cond.value.value)))
  {
    if ws == [] || cond.None? then Ok(ws)
    else
      var holds :- EvalCondition(cond.value, Int(|ws|));
      Ok(if holds then ws else [])
  }

  // ---------------------------------------------------------------------------
  // Stage 3: CART_ITEM_X_QUANTITY

  /** Floor of `a / b` for either sign of `b` (Dafny's `/` is Euclidean). */
  function FloorDiv(a: int, b: int): (r: int)
    requires b != 0
    ensures b > 0 ==> b * r <= a < b * (r + 1)
    ensures b < 0 ==> b * r >= a > b * (r + 1)
  {
    if b > 0 then a / b else (-a) / (-b)
  }

  /** `Math.round((float) n / q)`, i.e. the floor of `n/q + 1/2` with halves
      rounded up; a zero `q` makes the quotient +Infinity (NaN when `n` is 0),
      which rounds to `Integer.MAX_VALUE` (0). */
  function JavaRound(n: nat, q: int): (r: int)
    ensures q > 0 ==> 2 * q * r <= 2 * n + q < 2 * q * (r + 1)
    ensures q > 0 ==> r >= 0 && (r >= 1 <==> 2 * n >= q)
    ensures q < 0 ==> 2 * q * r >= 2 * n + q > 2 * q * (r + 1)
    ensures q < 0 ==> r <= 0
    ensures q == 0 ==> r == (if n == 0 then 0 else IntMax)
  {
    if q == 0 then (if n == 0 then 0 else IntMax)
    else
      var r := FloorDiv(2 * n + q, 2 * q);
      if q > 0 then PositiveFloor(2 * n + q, 2 * q, r); r
      else NegativeFloor(2 * n + q, 2 * q, r); r
  }

  lemma PositiveFloor(a: int, b: int, r: int)
    requires b > 0 && b * r <= a < b * (r + 1)
    ensures a >= 0 ==> r >= 0
    ensures r >= 1 <==> a >= b
  {
    if r < 0 {
      MulMonotone(b, r + 1, 0);
    }
    if r >= 1 {
      MulMonotone(b, 1, r);
    } else {
      MulMonotone(b, r + 1, 1);
    }
  }

  lemma MulMonotone(b: int, x: int, y: int)
    requires b > 0 && x <= y
    ensures b * x <= b * y
  {
    var d := y - x;
    assert b * y == b * x + b * d;
  }

  lemma NegativeFloor(a: int, b: int, r: int)
    requires b < 0 && b * r >= a && a > b
    ensures r <= 0
  {
  }

  /** How many items the X_QUANTITY stage keeps out of `n` for a condition
      value `q`: with `xq = round(n/q)`, `q - xq` when `xq > 0`, which
      `subList(0, q - xq)` rejects outside `[0, n]`; none when `xq <= 0`. */
  function KeptCount(n: nat, q: int): (r: Result<nat>)
    ensures r.Ok? ==> r.value <= n
    ensures q < 0 || (q > 0 && 2 * n < q) ==> r == Ok(0)
    ensures q == 0 && n > 0 ==> r == Err(SubListOutOfRange(-IntMax, n))
    ensures q > 0 && 2 * n >= q ==>
              var xq := JavaRound(n, q);
              && xq >= 1
              && (r.Ok? <==> xq <= q && q - xq <= n)
              && (r.Ok? ==> r.value + xq == q)
              && (r.Err? ==> r.error == SubListOutOfRange(q - xq, n))
  {
    var xq := JavaRound(n, q);
    if xq > 0 then
      var size := q - xq;
      if 0 <= size <= n then Ok(size) else Err(SubListOutOfRange(size, n))
    else Ok(0)
  }

  /** One group of exactly `q` items (the case the truncation is built for)
      keeps `q - 1` of them: "buy q, pay for one". */
  lemma KeptCountOneGroup(q: int)
    requires q > 0
    ensures KeptCount(q as nat, q) == Ok(q - 1)
  {
    var r := JavaRound(q as nat, q);
    assert 2 * q * r <= 3 * q;
    if r >= 2 {
      MulMonotone(2 * q, 2, r);
    }
  }

  /** The truncation under `q = 2`, the "2-for-1" set-up: one or two
      matching items keep one (0.5 rounds up), three or four keep none, and
      five or more make `subList` fail. */
  lemma KeptCountTwoForOne(n: nat)
    requires n > 0
    ensures KeptCount(n, 2) == if n <= 2 then Ok(1)
                               else if n <= 4 then Ok(0)
                               else Err(SubListOutOfRange(2 - (n + 1) / 2, n))
  {
    assert JavaRound(n, 2) == (n + 1) / 2;
  }

  /** `subList` also fails when the working set is smaller than the group:
      two items under `q = 4` keep `4 - round(0.5) = 3 > 2`. */
  lemma KeptCountOutOfRange()
    ensures KeptCount(2, 4) == Err(SubListOutOfRange(3, 2))
  {
    assert JavaRound(2, 4) == 1 by { assert FloorDiv(8, 8) == 1; }
  }

  /** Stage 3, whose output is the set the actions go to: empty when there is
      no X_QUANTITY condition or nothing is left; otherwise the prefix of the
      working set of `KeptCount` items. The value must be an Integer. */
  function XQuantityStage(ws: seq<nat>, cond: Option<Condition>): (r: Result<seq<nat>>)
    ensures ws == [] || cond.None? ==> r == Ok([])
    ensures r.Ok? ==> r.value <= ws
    ensures ws != [] && cond.Some? && !cond.value.value.Int? ==> r == Err(ClassCast(ClassOf(cond.value.value)))
    ensures ws != [] && cond.Some? && cond.value.value.Int? ==>
              var kept := KeptCount(|ws|, cond.value.value.i);
              && (r.Ok? <==> kept.Ok?)
              && (r.Ok? ==> |r.value| == kept.value)
              && (r.Err? ==> r.error == kept.error)
  {
    if ws == [] || cond.None? then Ok([])
    else
      match cond.value.value
      case Int(q) =>
        var k :- KeptCount(|ws|, q);
        Ok(ws[..k])
      case other => Err(ClassCast(ClassOf(other)))
  }

  /** The operator of an X_QUANTITY condition plays no part. */
  lemma XQuantityIgnoresOperator(ws: seq<nat>, c: Condition, op: Operator)
    ensures XQuantityStage(ws, Some(c.(op := op))) == XQuantityStage(ws, Some(c))
  {
  }

  // ---------------------------------------------------------------------------
  // One rule

  /** The quantity gate lets a working set of `n` items through: there is no
      CART_ITEM_QUANTITY_TOTAL condition, or its Integer value and operator
      accept `n`. */
  ghost predicate GatePasses(n: nat, qc: Option<Condition>) {
    qc.None? || (qc.value.value.Int? && Holds(qc.value.op, Int(n), qc.value.value))
  }

  /** The positions a rule's actions go to: the three stages in their fixed
      order, each from the first condition of its type. With `ws` the items
      passing the code stage: an empty `ws` selects nothing; a quantity
      condition that is not an Integer fails and one that rejects `|ws|`
      selects nothing; then, without an X_QUANTITY condition nothing is
      selected, with a non-Integer one the rule fails, and with `Int(q)` the
      first `KeptCount(|ws|, q)` items of `ws` are selected, or the rule fails
      as `KeptCount` does. */
  function RuleTargets(codes: seq<string>, conds: seq<Condition>): (r: Result<seq<nat>>)
    ensures r.Ok? ==> IsSelection(r.value, |codes|)
    ensures r.Ok? ==> CodeStage(codes, conds).Ok? && r.value <= CodeStage(codes, conds).value
    ensures CodeStage(codes, conds).Err? ==> r == Err(CodeStage(codes, conds).error)
    ensures r.Ok? && FirstOfType(conds, CartItemXQuantity).None? ==> r.value == []
    ensures r.Ok? && FirstOfType(conds, CartItemCode).Some? ==>
              forall k :: 0 <= k < |r.value| ==> CodeMatches(FirstOfType(conds, CartItemCode).value, codes[r.value[k]])
    ensures r.Ok? && r.value != [] ==>
              GatePasses(|CodeStage(codes, conds).value|, FirstOfType(conds, CartItemQuantityTotal))
    ensures CodeStage(codes, conds).Ok? ==>
              var ws := CodeStage(codes, conds).value;
              var qc := FirstOfType(conds, CartItemQuantityTotal);
              && (ws == [] ==> r == Ok([]))
              && (ws != [] && qc.Some? && !qc.value.value.Int? ==>
                    r == Err(ClassMismatch(IntegerClass, ClassOf(qc.value.value))))
              && (ws != [] && qc.Some? && qc.value.value.Int? && !GatePasses(|ws|, qc) ==> r == Ok([]))
    ensures CodeStage(codes, conds).Ok? ==>
              var ws := CodeStage(codes, conds).value;
              var xc := FirstOfType(conds, CartItemXQuantity);
              ws != [] && GatePasses(|ws|, FirstOfType(conds, CartItemQuantityTotal)) ==>
                && (xc.None? ==> r == Ok([]))
                && (xc.Some? && !xc.value.value.Int? ==> r == Err(ClassCast(ClassOf(xc.value.value))))
                && (xc.Some? && xc.value.value.Int? ==>
                      var kept := KeptCount(|ws|, xc.value.value.i);
                      && (r.Ok? <==> kept.Ok?)
                      && (r.Ok? ==> r.value == ws[..kept.value])
                      && (r.Err? ==> r.error == kept.error))
  {
    var ws1 :- CodeStage(codes, conds);
    var ws2 :- QuantityStage(ws1, FirstOfType(conds, CartItemQuantityTotal));
    var r := XQuantityStage(ws2, FirstOfType(conds, CartItemXQuantity));
    assert r.Ok? ==> forall k :: 0 <= k < |r.value| ==> r.value[k] == ws1[k] by {
      if r.Ok? && r.value != [] {
        assert r.value <= ws2 && ws2 == ws1;
      }
    }
    r
  }

  /** Rule `rule` sends its actions to position `i` of a cart with these codes. */
  ghost predicate Selects(codes: seq<string>, rule: PricingRule, i: nat) {
    && rule.conditions.Some?
    && RuleTargets(codes, rule.conditions.value).Ok?
    && i in RuleTargets(codes, rule.conditions.value).value
  }

  /** Rule `rule` sends its actions to cart position `i`. */
  ghost predicate Targeted(cart: Cart, rule: PricingRule, i: nat) {
    Selects(Codes(cart), rule, i)
  }

  /** The working set is chosen by codes and counts alone, never by prices or
      discounts, so discounts written by an earlier rule cannot change what a
      later rule selects. */
  lemma RuleTargetsDependOnlyOnCodes(c1: Cart, c2: Cart, conds: seq<Condition>)
    requires |c1| == |c2|
    requires forall i :: 0 <= i < |c1| ==> SameIdentity(c1[i], c2[i])
    ensures RuleTargets(Codes(c1), conds) == RuleTargets(Codes(c2), conds)
  {
    assert Codes(c1) == Codes(c2);
  }

  /** One rule on the current cart (one iteration of the rules loop). A rule
      with a null condition list is skipped; a rule that selects nothing
      changes nothing; a rule that selects items but has a null action list
      fails. */
  function ApplyRule(cart: Cart, rule: PricingRule): (r: Result<Cart>)
    ensures rule.conditions.None? ==> r == Ok(cart)
    ensures r.Ok? ==> |r.value| == |cart|
    ensures r.Ok? ==> forall i :: 0 <= i < |cart| ==> SameIdentity(r.value[i], cart[i])
    ensures r.Ok? ==> forall i :: 0 <= i < |cart| && !Targeted(cart, rule, i) ==> r.value[i] == cart[i]
    ensures r.Ok? && rule.actions.Some? ==>
              forall i :: 0 <= i < |cart| && Targeted(cart, rule, i) ==> r.value[i] == ActAll(rule.actions.value, cart[i])
    ensures r.Err? <==> (rule.conditions.Some? &&
                         var t := RuleTargets(Codes(cart), rule.conditions.value);
                         t.Err? || (t.value != [] && rule.actions.None?))
    ensures r.Err? ==> var t := RuleTargets(Codes(cart), rule.conditions.value);
                       r.error == (if t.Err? then t.error else MissingActions)
  {
    if rule.conditions.None? then Ok(cart)
    else
      var targets :- RuleTargets(Codes(cart), rule.conditions.value);
      if targets == [] then Ok(cart)
      else if rule.actions.None? then Err(MissingActions)
      else Ok(ApplyActions(cart, targets, rule.actions.value))
  }

  /** A rule without an X_QUANTITY condition never applies its actions, even
      when its other conditions match. */
  lemma RuleWithoutXQuantityChangesNothing(cart: Cart, rule: PricingRule)
    requires rule.conditions.Some?
    requires forall i :: 0 <= i < |rule.conditions.value| ==> rule.conditions.value[i].kind != CartItemXQuantity
    ensures ApplyRule(cart, rule).Ok? ==> ApplyRule(cart, rule).value == cart
  {
  }

  /** A rule `code EQUALS c` + `X_QUANTITY 2` (a "2-for-1") selects the only
      item with code `c` when the cart holds just one: round(1/2) is 1, so
      `subList(0, 2 - 1)` keeps it. */
  lemma {:induction false} TwoForOneSelectsLoneItem(cart: Cart, code: string, i: nat)
    requires i < |cart| && cart[i].code == code
    requires forall j :: 0 <= j < |cart| && j != i ==> cart[j].code != code
    ensures RuleTargets(Codes(cart), [Condition(CartItemCode, Equals, Text(code)),
                                      Condition(CartItemXQuantity, Equals, Int(2))]) == Ok([i])
  {
    var conds := [Condition(CartItemCode, Equals, Text(code)), Condition(CartItemXQuantity, Equals, Int(2))];
    assert FirstOfType(conds, CartItemCode) == Some(conds[0]);
    assert FirstOfType(conds, CartItemQuantityTotal) == None;
    assert FirstOfType(conds, CartItemXQuantity) == Some(conds[1]);
    var ws := CodeStage(Codes(cart), conds).value;
    assert forall j :: 0 <= j < |cart| ==> (j in ws <==> j == i);
    SingletonSelection(ws, i, |cart|);
    assert QuantityStage(ws, None) == Ok(ws);
    KeptCountTwoForOne(1);
    assert KeptCount(|ws|, 2) == Ok(1);
    var x := XQuantityStage(ws, Some(conds[1]));
    assert x.Ok?;
    assert |x.value| == 1;
    assert x.value <= ws;
    assert x.value == [i];
  }

  /** A working set holding exactly position `i` is `[i]`. */
  lemma SingletonSelection(ws: seq<nat>, i: nat, n: nat)
    requires i < n && IsSelection(ws, n)
    requires forall j :: 0 <= j < n ==> (j in ws <==> j == i)
    ensures ws == [i]
  {
    SelectionFront(ws, n);
    assert i in ws;
  }

  lemma SelectionFront(ws: seq<nat>, n: nat)
    ensures IsSelection(ws, n) && |ws| >= 1 ==> ws[0] in ws && ws[0] < n
    ensures IsSelection(ws, n) && |ws| >= 2 ==> ws[1] in ws && ws[1] < n && ws[0] < ws[1]
  {
  }

  /** Re-evaluating a rule (as every scan does) selects the same items and
      applies its actions again on top of the discounts of the first pass:
      nothing resets a discount between evaluations. */
  lemma ReevaluationReappliesActions(cart: Cart, rule: PricingRule, i: nat)
    requires i < |cart| && Targeted(cart, rule, i)
    requires rule.actions.Some?
    requires ApplyRule(cart, rule).Ok?
    ensures ApplyRule(ApplyRule(cart, rule).value, rule).Ok?
    ensures ApplyRule(ApplyRule(cart, rule).value, rule).value[i]
            == ActAll(rule.actions.value, ActAll(rule.actions.value, cart[i]))
  {
    var once := ApplyRule(cart, rule).value;
    RuleTargetsDependOnlyOnCodes(once, cart, rule.conditions.value);
    assert Targeted(once, rule, i);
  }

  /** Hence a DISCOUNT_PERCENT rule evaluated twice discounts a selected item
      twice, until the price caps it. */
  lemma PercentTwice(a: Action, item: CartItem)
    requires a.kind == CartItemDiscountPercent
    requires item.price * a.amount / 100.0 >= 0.0
    requires item.discount + 2.0 * (item.price * a.amount / 100.0) <= item.price
    ensures ActAll([a], ActAll([a], item)).discount == item.discount + 2.0 * (item.price * a.amount / 100.0)
  {
    ActAllSingle(a, item);
    ActAllSingle(a, ActOn(a, item));
    var once := ActOn(a, item);
    assert once.price == item.price;
    assert once.discount == item.discount + item.price * a.amount / 100.0;
  }

  lemma {:induction false} FixedPricesIgnoreDiscount(actions: seq<Action>, item: CartItem, d: real)
    requires |actions| > 0
    requires forall k :: 0 <= k < |actions| ==> actions[k].kind == CartItemFixedPrice
    ensures ActAll(actions, item.(discount := d)) == ActAll(actions, item)
  {
    FixedPriceOverwrites(actions[0], item, d);
    assert ActOn(actions[0], item.(discount := d)) == ActOn(actions[0], item);
  }

  /** A rule whose actions are all FIXED_PRICE gives the same cart when it is
      evaluated again: the price is overwritten, not accumulated. */
  lemma FixedPriceRuleIdempotent(cart: Cart, rule: PricingRule)
    requires rule.actions.Some?
    requires forall k :: 0 <= k < |rule.actions.value| ==> rule.actions.value[k].kind == CartItemFixedPrice
    requires ApplyRule(cart, rule).Ok?
    ensures ApplyRule(ApplyRule(cart, rule).value, rule) == ApplyRule(cart, rule)
  {
    var once := ApplyRule(cart, rule).value;
    if rule.conditions.Some? {
      RuleTargetsDependOnlyOnCodes(once, cart, rule.conditions.value);
      var twice := ApplyRule(once, rule).value;
      forall i | 0 <= i < |cart|
        ensures twice[i] == once[i]
      {
        if Targeted(cart, rule, i) {
          assert Targeted(once, rule, i);
          var acts := rule.actions.value;
          if |acts| > 0 {
            assert once[i] == cart[i].(discount := once[i].discount);
            FixedPricesIgnoreDiscount(acts, cart[i], once[i].discount);
          }
        }
      }
      assert twice == once;
    }
  }

  // ---------------------------------------------------------------------------
  // All rules

  /** The cart after evaluation, and the failure that stopped it, if any. */
  datatype Evaluated = Evaluated(cart: Cart, failure: Option<Error>)

  /** `evaluateAndApplyPricingRules()`: the rules in declaration order, each on
      the cart the previous ones left. A failing rule stops the loop; the
      discounts written by the rules before it stay. */
  function Evaluate(cart: Cart, rules: seq<PricingRule>): (e: Evaluated)
    ensures |e.cart| == |cart|
    ensures forall i :: 0 <= i < |cart| ==> SameIdentity(e.cart[i], cart[i])
    ensures (forall i :: 0 <= i < |cart| ==> Capped(cart[i])) ==> forall i :: 0 <= i < |cart| ==> Capped(e.cart[i])
    decreases |rules|
  {
    if |rules| == 0 then Evaluated(cart, None)
    else
      match ApplyRule(cart, rules[0])
      case Err(err) => Evaluated(cart, Some(err))
      case Ok(next) =>
        assert forall i :: 0 <= i < |cart| ==> Capped(cart[i]) ==> Capped(next[i]) by {
          forall i | 0 <= i < |cart| && Capped(cart[i])
            ensures Capped(next[i])
          {
            if Targeted(cart, rules[0], i) {
              assert rules[0].actions.Some?;
              assert |rules[0].actions.value| > 0 || next[i] == cart[i];
            }
          }
        }
        Evaluate(next, rules[1..])
  }

  /** Evaluating a list of rules is evaluating a prefix and then the rest on
      its result, unless the prefix failed. */
  lemma {:induction false} EvaluateSplits(cart: Cart, first: seq<PricingRule>, rest: seq<PricingRule>)
    ensures Evaluate(cart, first).failure.None? ==>
              Evaluate(cart, first + rest) == Evaluate(Evaluate(cart, first).cart, rest)
    ensures Evaluate(cart, first).failure.Some? ==>
              Evaluate(cart, first + rest) == Evaluate(cart, first)
    decreases |first|
  {
    if |first| == 0 {
      assert first + rest == rest;
    } else {
      assert (first + rest)[0] == first[0];
      assert (first + rest)[1..] == first[1..] + rest;
      match ApplyRule(cart, first[0])
      case Err(_) =>
      case Ok(next) => EvaluateSplits(next, first[1..], rest);
    }
  }

  /** Evaluating a single rule is applying it. */
  lemma EvaluateOneRule(cart: Cart, rule: PricingRule)
    ensures ApplyRule(cart, rule).Ok? ==> Evaluate(cart, [rule]) == Evaluated(ApplyRule(cart, rule).value, None)
    ensures ApplyRule(cart, rule).Err? ==> Evaluate(cart, [rule]) == Evaluated(cart, Some(ApplyRule(cart, rule).error))
  {
    assert [rule][0] == rule;
    assert [rule][1..] == [];
  }

  /** The actions that reach cart position `i`: those of every rule selecting
      `i`, rule after rule in declaration order, each rule's own actions in
      their declaration order. */
  ghost function ActionsFor(codes: seq<string>, rules: seq<PricingRule>, i: nat): seq<Action>
    decreases |rules|
  {
    if |rules| == 0 then []
    else
      (if Selects(codes, rules[0], i) && rules[0].actions.Some? then rules[0].actions.value else [])
      + ActionsFor(codes, rules[1..], i)
  }

  /** When no rule fails, every item ends up with exactly the actions of the
      rules that select it, applied in rule order to the item as scanned. */
  lemma {:induction false} EvaluateAppliesSelectedActions(cart: Cart, rules: seq<PricingRule>, i: nat)
    requires i < |cart|
    ensures Evaluate(cart, rules).failure.None? ==>
              Evaluate(cart, rules).cart[i] == ActAll(ActionsFor(Codes(cart), rules, i), cart[i])
    decreases |rules|
  {
    if |rules| > 0 {
      match ApplyRule(cart, rules[0])
      case Err(_) =>
      case Ok(next) =>
        assert Codes(next) == Codes(cart);
        EvaluateAppliesSelectedActions(next, rules[1..], i);
        var first := if Selects(Codes(cart), rules[0], i) && rules[0].actions.Some? then rules[0].actions.value else [];
        assert next[i] == ActAll(first, cart[i]);
        ActAllSplit(first, ActionsFor(Codes(cart), rules[1..], i), cart[i]);
    }
  }

  /** Whether a rule fails is decided by the cart's codes alone. */
  lemma ApplyRuleFailureDependsOnlyOnCodes(c1: Cart, c2: Cart, rule: PricingRule)
    requires Codes(c1) == Codes(c2)
    ensures ApplyRule(c1, rule).Err? <==> ApplyRule(c2, rule).Err?
    ensures ApplyRule(c1, rule).Err? ==> ApplyRule(c1, rule).error == ApplyRule(c2, rule).error
  {
  }

  /** Evaluation succeeds exactly when every rule succeeds on the scanned
      cart. */
  lemma {:induction false} EvaluateSucceeds(cart: Cart, rules: seq<PricingRule>)
    ensures Evaluate(cart, rules).failure.None? <==> forall j :: 0 <= j < |rules| ==> ApplyRule(cart, rules[j]).Ok?
    decreases |rules|
  {
    if |rules| > 0 {
      match ApplyRule(cart, rules[0])
      case Err(_) =>
      case Ok(next) =>
        assert Codes(next) == Codes(cart);
        EvaluateSucceeds(next, rules[1..]);
        forall j | 1 <= j < |rules|
          ensures ApplyRule(next, rules[1..][j - 1]).Ok? <==> ApplyRule(cart, rules[j]).Ok?
        {
          assert rules[1..][j - 1] == rules[j];
          ApplyRuleFailureDependsOnlyOnCodes(next, cart, rules[j]);
        }
    }
  }

  /** A failed evaluation reports the error of the first rule that fails on
      the scanned cart. */
  lemma {:induction false} EvaluateFirstFailure(cart: Cart, rules: seq<PricingRule>)
    ensures Evaluate(cart, rules).failure.Some? ==>
              exists j :: && 0 <= j < |rules|
                          && ApplyRule(cart, rules[j]).Err?
                          && Evaluate(cart, rules).failure.value == ApplyRule(cart, rules[j]).error
                          && forall k :: 0 <= k < j ==> ApplyRule(cart, rules[k]).Ok?
    decreases |rules|
  {
    if |rules| > 0 {
      match ApplyRule(cart, rules[0])
      case Err(_) =>
      case Ok(next) =>
        EvaluateFirstFailure(next, rules[1..]);
        if Evaluate(next, rules[1..]).failure.Some? {
          assert Codes(next) == Codes(cart);
          var j :| && 0 <= j < |rules[1..]|
                   && ApplyRule(next, rules[1..][j]).Err?
                   && Evaluate(next, rules[1..]).failure.value == ApplyRule(next, rules[1..][j]).error
                   && forall k :: 0 <= k < j ==> ApplyRule(next, rules[1..][k]).Ok?;
          assert rules[1..][j] == rules[j + 1];
          ApplyRuleFailureDependsOnlyOnCodes(next, cart, rules[j + 1]);
          forall k | 1 <= k < j + 1
            ensures ApplyRule(cart, rules[k]).Ok?
          {
            assert rules[1..][k - 1] == rules[k];
            ApplyRuleFailureDependsOnlyOnCodes(next, cart, rules[k]);
          }
          assert Evaluate(cart, rules) == Evaluate(next, rules[1..]);
        }
    }
  }

  /** The three lemmas above for every item at once. */
  lemma EvaluateMeaning(cart: Cart, rules: seq<PricingRule>)
    ensures Evaluate(cart, rules).failure.None? <==> forall j :: 0 <= j < |rules| ==> ApplyRule(cart, rules[j]).Ok?
    ensures Evaluate(cart, rules).failure.None? ==>
              forall i :: 0 <= i < |cart| ==> Evaluate(cart, rules).cart[i] == ActAll(ActionsFor(Codes(cart), rules, i), cart[i])
    ensures forall i :: 0 <= i < |cart| && Evaluate(cart, rules).cart[i] != cart[i] ==>
              exists j :: 0 <= j < |rules| && Targeted(cart, rules[j], i)
  {
    EvaluateSucceeds(cart, rules);
    forall i | 0 <= i < |cart|
      ensures Evaluate(cart, rules).failure.None? ==> Evaluate(cart, rules).cart[i] == ActAll(ActionsFor(Codes(cart), rules, i), cart[i])
      ensures Evaluate(cart, rules).cart[i] != cart[i] ==> exists j :: 0 <= j < |rules| && Targeted(cart, rules[j], i)
    {
      EvaluateAppliesSelectedActions(cart, rules, i);
      if Evaluate(cart, rules).cart[i] != cart[i] {
        EvaluateTouchesOnlyTargets(cart, rules, i);
      }
    }
  }

  /** Only the items some rule selected change, and each rule's selection is
      the one it makes on the cart as it was before evaluation: rules do not
      feed each other. */
  lemma {:induction false} EvaluateTouchesOnlyTargets(cart: Cart, rules: seq<PricingRule>, i: nat)
    requires i < |cart|
    requires Evaluate(cart, rules).cart[i] != cart[i]
    ensures exists j :: 0 <= j < |rules| && Targeted(cart, rules[j], i)
    decreases |rules|
  {
    assert |rules| > 0;
    match ApplyRule(cart, rules[0])
    case Err(_) =>
    case Ok(next) =>
      if next[i] != cart[i] {
        assert Targeted(cart, rules[0], i);
      } else {
        EvaluateTouchesOnlyTargets(next, rules[1..], i);
        var j :| 0 <= j < |rules[1..]| && Targeted(next, rules[1..][j], i);
        RuleTargetsDependOnlyOnCodes(next, cart, rules[1..][j].conditions.value);
        assert Targeted(cart, rules[j + 1], i);
      }
  }

  // ---------------------------------------------------------------------------
  // Checkout

  datatype Checkout = Checkout(items: Cart, rules: seq<PricingRule>)

  /** What a scan leaves behind; `failure` is the exception `scan` throws. */
  datatype Scanned = Scanned(checkout: Checkout, failure: Option<Error>)

  /** `new Checkout(rules)`: an empty cart. */
  function NewCheckout(rules: seq<PricingRule>): (co: Checkout)
    ensures co.items == [] && co.rules == rules
  {
    Checkout([], rules)
  }

  /** `scan(item)`: append the item, then evaluate every rule over the whole
      cart. The item stays in the cart even when evaluation fails. */
  function Scan(co: Checkout, item: CartItem): (r: Scanned)
    ensures r.checkout.rules == co.rules
    ensures |r.checkout.items| == |co.items| + 1
    ensures forall i :: 0 <= i < |co.items| ==> SameIdentity(r.checkout.items[i], co.items[i])
    ensures SameIdentity(r.checkout.items[|co.items|], item)
    ensures (forall i :: 0 <= i < |co.items| ==> Capped(co.items[i])) && Capped(item) ==>
              forall i :: 0 <= i < |r.checkout.items| ==> Capped(r.checkout.items[i])
    ensures r.checkout.items == Evaluate(co.items + [item], co.rules).cart
    ensures r.failure == Evaluate(co.items + [item], co.rules).failure
    ensures r.failure.None? <==> forall j :: 0 <= j < |co.rules| ==> ApplyRule(co.items + [item], co.rules[j]).Ok?
    ensures r.failure.None? ==>
              forall i :: 0 <= i < |r.checkout.items| ==>
                r.checkout.items[i] == ActAll(ActionsFor(Codes(co.items + [item]), co.rules, i), (co.items + [item])[i])
    ensures forall i :: 0 <= i < |r.checkout.items| && r.checkout.items[i] != (co.items + [item])[i] ==>
              exists j :: 0 <= j < |co.rules| && Targeted(co.items + [item], co.rules[j], i)
  {
    var cart := co.items + [item];
    var e := Evaluate(cart, co.rules);
    EvaluateMeaning(cart, co.rules);
    Scanned(Checkout(e.cart, co.rules), e.failure)
  }

  // ---------------------------------------------------------------------------
  // Total

  /** Sum of the net prices (`price - discount`) of the items. */
  function NetTotal(cart: Cart): real {
    if |cart| == 0 then 0.0 else NetTotal(cart[..|cart| - 1]) + NetPrice(cart[|cart| - 1])
  }

  function PriceSum(cart: Cart): real {
    if |cart| == 0 then 0.0 else PriceSum(cart[..|cart| - 1]) + cart[|cart| - 1].price
  }

  function DiscountSum(cart: Cart): real {
    if |cart| == 0 then 0.0 else DiscountSum(cart[..|cart| - 1]) + cart[|cart| - 1].discount
  }

  /** `getCartTotal()`: the item prices summed in cart order, each less its
      discount. */
  method GetCartTotal(cart: Cart) returns (total: real)
    ensures total == NetTotal(cart)
    ensures total == PriceSum(cart) - DiscountSum(cart)
    ensures (forall i :: 0 <= i < |cart| ==> Capped(cart[i])) ==> total >= 0.0
  {
    total := 0.0;
    var k := 0;
    while k < |cart|
      invariant 0 <= k <= |cart|
      invariant total == NetTotal(cart[..k])
    {
      assert cart[..k + 1][..k] == cart[..k];
      total := total + (cart[k].price - cart[k].discount);
      k := k + 1;
    }
    assert cart[..k] == cart;
    NetTotalMeaning(cart);
  }

  /** The total is the prices less the discounts, and it is never negative
      while every discount is capped by its price. */
  lemma {:induction false} NetTotalMeaning(cart: Cart)
    ensures NetTotal(cart) == PriceSum(cart) - DiscountSum(cart)
    ensures (forall i :: 0 <= i < |cart| ==> Capped(cart[i])) ==> NetTotal(cart) >= 0.0
  {
    if |cart| > 0 {
      NetTotalMeaning(cart[..|cart| - 1]);
    }
  }
}
