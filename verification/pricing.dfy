/**
 Pricing-rule conditions and actions (PricingRule.java): how a condition
 compares a fact from the cart with its value, how the builders validate their
 input, and how an action rewrites the discount of the items a rule selected.
 */
module Pricing {
  import opened Values
  import opened Results
  import opened Cart

  datatype ConditionType = CartItemQuantityTotal | CartItemXQuantity | CartItemCode

  datatype Operator =
    | Equals
    | NotEquals
    | GreaterThan
    | LessThan
    | GreaterThanEquals
    | LessThanEquals

  datatype Condition = Condition(kind: ConditionType, op: Operator, value: Value)

  datatype ActionType = CartItemDiscountPercent | CartItemFixedPrice

  /** The action's amount is any `Number`, read through `doubleValue()`. */
  datatype Action = Action(kind: ActionType, amount: real)

  /** `PricingRule.java` lets either list be `null`. */
  datatype PricingRule = PricingRule(conditions: Option<seq<Condition>>, actions: Option<seq<Action>>)

  // ---------------------------------------------------------------------------
  // Conditions

  /** What `op` means for a fact and a condition value of the same class,
      stated with the reference ordering rather than with compareTo. */
  ghost predicate Holds(op: Operator, fact: Value, expected: Value) {
    match op
    case Equals => fact == expected
    case NotEquals => fact != expected
    case GreaterThan => Less(expected, fact)
    case LessThan => Less(fact, expected)
    case GreaterThanEquals => Less(expected, fact) || fact == expected
    case LessThanEquals => Less(fact, expected) || fact == expected
  }

  /** `evalCondition(fact)`: a fact of another class than the condition's value
      is a hard failure; otherwise the operator is decided by the sign of
      `fact.compareTo(value)`. */
  function EvalCondition(c: Condition, fact: Value): (r: Result<bool>)
    ensures r.Err? <==> ClassOf(fact) != ClassOf(c.value)
    ensures r.Err? ==> r.error == ClassMismatch(ClassOf(fact), ClassOf(c.value))
    ensures r.Ok? ==> (r.value <==> Holds(c.op, fact, c.value))
  {
    if ClassOf(fact) != ClassOf(c.value) then
      Err(ClassMismatch(ClassOf(fact), ClassOf(c.value)))
    else
      var cmp := CompareTo(fact, c.value);
      CompareToMeaning(fact, c.value);
      match c.op
      case Equals => Ok(cmp == 0)
      case GreaterThanEquals => Ok(cmp >= 0)
      case GreaterThan => Ok(cmp > 0)
      case LessThanEquals => Ok(cmp <= 0)
      case LessThan => Ok(cmp < 0)
      case NotEquals => Ok(cmp != 0)
  }

  /** For operands of one class the six operators pair up: each of NOT_EQUALS,
      GREATER_THAN and LESS_THAN is the negation of EQUALS, LESS_THAN_EQUALS and
      GREATER_THAN_EQUALS, and the inclusive operators are the strict ones
      or EQUALS. */
  lemma OperatorDualities(kind: ConditionType, expected: Value, fact: Value)
    requires ClassOf(fact) == ClassOf(expected)
    ensures var eq := EvalCondition(Condition(kind, Equals, expected), fact);
            var ne := EvalCondition(Condition(kind, NotEquals, expected), fact);
            var gt := EvalCondition(Condition(kind, GreaterThan, expected), fact);
            var lt := EvalCondition(Condition(kind, LessThan, expected), fact);
            var ge := EvalCondition(Condition(kind, GreaterThanEquals, expected), fact);
            var le := EvalCondition(Condition(kind, LessThanEquals, expected), fact);
            && eq.Ok? && ne.Ok? && gt.Ok? && lt.Ok? && ge.Ok? && le.Ok?
            && (eq.value <==> fact == expected)
            && ne.value == !eq.value
            && gt.value == !le.value
            && lt.value == !ge.value
            && (ge.value <==> gt.value || eq.value)
            && (le.value <==> lt.value || eq.value)
            && !(lt.value && gt.value)
  {
    CompareToMeaning(fact, expected);
  }

  /** Swapping the fact and the condition value turns GREATER_THAN into
      LESS_THAN: the ordering compareTo decides is the same in both
      directions. */
  lemma GreaterThanIsConverseLessThan(kind: ConditionType, x: Value, y: Value)
    requires ClassOf(x) == ClassOf(y)
    ensures EvalCondition(Condition(kind, GreaterThan, y), x) == EvalCondition(Condition(kind, LessThan, x), y)
  {
    CompareToMeaning(x, y);
    CompareToMeaning(y, x);
  }

  /** Text is ordered, not rejected: an ordering operator on two strings
      compares them in dictionary order. */
  lemma TextOrderingIsDictionaryOrder(kind: ConditionType, op: Operator, a: string, b: string)
    requires op == GreaterThan || op == LessThan
    ensures EvalCondition(Condition(kind, op, Text(b)), Text(a)).Ok?
    ensures EvalCondition(Condition(kind, op, Text(b)), Text(a)).value
            <==> (if op == LessThan then LexLess(a, b) else LexLess(b, a))
  {
  }

  /** `PriceRuleCondition.Builder.build()`: a missing operator becomes EQUALS,
      then a missing type and a missing value are rejected, in that order. */
  function BuildCondition(kind: Option<ConditionType>, op: Option<Operator>, value: Option<Value>): (r: Result<Condition>)
    ensures kind.None? ==> r == Err(MissingConditionType)
    ensures kind.Some? && value.None? ==> r == Err(MissingConditionValue)
    ensures r.Ok? <==> kind.Some? && value.Some?
    ensures r.Ok? ==> r.value.kind == kind.value && r.value.value == value.value
    ensures r.Ok? ==> r.value.op == (if op.None? then Equals else op.value)
  {
    var operator := if op.None? then Equals else op.value;
    if kind.None? then Err(MissingConditionType)
    else if value.None? then Err(MissingConditionValue)
    else Ok(Condition(kind.value, operator, value.value))
  }

  /** Every condition is what the builder makes of its own three fields, and
      leaving the operator out gives the same as asking for EQUALS. */
  lemma BuildConditionRoundTrip(c: Condition)
    ensures BuildCondition(Some(c.kind), Some(c.op), Some(c.value)) == Ok(c)
    ensures BuildCondition(Some(c.kind), None, Some(c.value)) == Ok(c.(op := Equals))
  {
  }

  // ---------------------------------------------------------------------------
  // Actions

  /** `PriceRuleAction.Builder.build()`: a missing type, then a missing value,
      is rejected. */
  function BuildAction(kind: Option<ActionType>, amount: Option<real>): (r: Result<Action>)
    ensures kind.None? ==> r == Err(MissingActionType)
    ensures kind.Some? && amount.None? ==> r == Err(MissingActionValue)
    ensures r.Ok? <==> kind.Some? && amount.Some?
    ensures r.Ok? ==> r.value.kind == kind.value && r.value.amount == amount.value
  {
    if kind.None? then Err(MissingActionType)
    else if amount.None? then Err(MissingActionValue)
    else Ok(Action(kind.value, amount.value))
  }

  lemma BuildActionRoundTrip(a: Action)
    ensures BuildAction(Some(a.kind), Some(a.amount)) == Ok(a)
  {
  }

  /** One action on one selected item. FIXED_PRICE v overwrites the discount
      with `price - v`; DISCOUNT_PERCENT v adds `price * v / 100` to the
      discount the item already has. Both go through `SetDiscount`. */
  function ActOn(a: Action, item: CartItem): (r: CartItem)
    ensures SameIdentity(r, item) && Capped(r)
    ensures a.kind == CartItemFixedPrice ==>
              && (a.amount >= 0.0 ==> r.discount == item.price - a.amount)
              && (a.amount < 0.0 ==> r.discount == item.price)
    ensures a.kind == CartItemDiscountPercent ==>
              var wanted := item.discount + item.price * a.amount / 100.0;
              && (wanted <= item.price ==> r.discount == wanted)
              && (wanted > item.price ==> r.discount == item.price)
  {
    match a.kind
    case CartItemFixedPrice => SetDiscount(item, item.price - a.amount)
    case CartItemDiscountPercent => SetDiscount(item, item.discount + item.price * (a.amount / 100.0))
  }

  /** FIXED_PRICE ignores whatever discount the item had, so applying it again
      changes nothing. */
  lemma FixedPriceOverwrites(a: Action, item: CartItem, earlier: real)
    requires a.kind == CartItemFixedPrice
    ensures ActOn(a, item.(discount := earlier)) == ActOn(a, item)
    ensures ActOn(a, ActOn(a, item)) == ActOn(a, item)
  {
  }

  /** `applyPricingRuleAction(filteredCartItems)`: the action is applied to
      each selected item, in working-set order; every other item is left as it
      was. */
  function ApplyAction(cart: Cart, targets: seq<nat>, a: Action): (r: Cart)
    requires IsSelection(targets, |cart|)
    ensures |r| == |cart|
    ensures forall i :: 0 <= i < |cart| && i in targets ==> r[i] == ActOn(a, cart[i])
    ensures forall i :: 0 <= i < |cart| && i !in targets ==> r[i] == cart[i]
    decreases |targets|
  {
    if |targets| == 0 then cart
    else
      var t := targets[0];
      assert t !in targets[1..];
      ApplyAction(cart[t := ActOn(a, cart[t])], targets[1..], a)
  }

  /** All of a rule's actions on one item, in declaration order. */
  function ActAll(actions: seq<Action>, item: CartItem): (r: CartItem)
    ensures SameIdentity(r, item)
    ensures |actions| > 0 ==> Capped(r)
  {
    if |actions| == 0 then item else ActAll(actions[1..], ActOn(actions[0], item))
  }

  lemma ActAllSingle(a: Action, item: CartItem)
    ensures ActAll([a], item) == ActOn(a, item)
  {
    assert [a][1..] == [];
  }

  /** The actions run one after the other in declaration order: running a list
      is running its front part and then its back part on the result. */
  lemma {:induction false} ActAllSplit(s: seq<Action>, t: seq<Action>, item: CartItem)
    ensures ActAll(s + t, item) == ActAll(t, ActAll(s, item))
    decreases |s|
  {
    if |s| == 0 {
      assert s + t == t;
    } else {
      assert (s + t)[0] == s[0];
      assert (s + t)[1..] == s[1..] + t;
      ActAllSplit(s[1..], t, ActOn(s[0], item));
    }
  }

  /** Order matters: on an item of price 10 without discount, FIXED_PRICE 8
      then DISCOUNT_PERCENT 10 leaves discount 3, the other order leaves 2. */
  lemma ActionOrderMatters(item: CartItem)
    requires item.price == 10.0 && item.discount == 0.0
    ensures ActAll([Action(CartItemFixedPrice, 8.0), Action(CartItemDiscountPercent, 10.0)], item).discount == 3.0
    ensures ActAll([Action(CartItemDiscountPercent, 10.0), Action(CartItemFixedPrice, 8.0)], item).discount == 2.0
  {
    var f := Action(CartItemFixedPrice, 8.0);
    var p := Action(CartItemDiscountPercent, 10.0);
    ActAllSplit([f], [p], item);
    ActAllSplit([p], [f], item);
    assert [f] + [p] == [f, p];
    assert [p] + [f] == [p, f];
    ActAllSingle(f, item);
    ActAllSingle(p, ActOn(f, item));
    ActAllSingle(p, item);
    ActAllSingle(f, ActOn(p, item));
  }

  /** A rule's actions applied one after the other to the whole working set,
      in declaration order; an item of the working set ends up with all the
      actions applied to it in turn, and no other item changes. */
  function ApplyActions(cart: Cart, targets: seq<nat>, actions: seq<Action>): (r: Cart)
    requires IsSelection(targets, |cart|)
    ensures |r| == |cart|
    ensures forall i :: 0 <= i < |cart| && i in targets ==> r[i] == ActAll(actions, cart[i])
    ensures forall i :: 0 <= i < |cart| && i !in targets ==> r[i] == cart[i]
    decreases |actions|
  {
    if |actions| == 0 then cart
    else ApplyActions(ApplyAction(cart, targets, actions[0]), targets, actions[1..])
  }

  /** Applying a FIXED_PRICE action twice to the same working set gives the
      same cart as applying it once. */
  lemma {:induction false} FixedPriceIdempotent(cart: Cart, targets: seq<nat>, a: Action)
    requires IsSelection(targets, |cart|) && a.kind == CartItemFixedPrice
    ensures ApplyAction(ApplyAction(cart, targets, a), targets, a) == ApplyAction(cart, targets, a)
  {
    var once := ApplyAction(cart, targets, a);
    var twice := ApplyAction(once, targets, a);
    forall i | 0 <= i < |cart|
      ensures twice[i] == once[i]
    {
      if i in targets {
        FixedPriceOverwrites(a, cart[i], cart[i].discount);
      }
    }
  }
}
