/**
 The closed set of comparison values a pricing-rule condition can hold, and the
 `compareTo` ordering the engine uses on them: `String`, `Integer` and `Double`
 in `PricingRule.java`. Every condition value and every fact derived from the
 cart is one of these three.
 */
module Values {

  /** The runtime class of a value; two values are comparable only when equal. */
  datatype JavaClass = StringClass | IntegerClass | DoubleClass

  datatype Value = Text(s: string) | Int(i: int) | Dec(d: real)

  function ClassOf(v: Value): JavaClass {
    match v
    case Text(_) => StringClass
    case Int(_) => IntegerClass
    case Dec(_) => DoubleClass
  }

  /** `String.compareTo`: the difference of the first differing characters,
      or else the difference of the lengths. */
  function StringCompareTo(a: string, b: string): int
  {
    if |a| == 0 || |b| == 0 then |a| - |b|
    else if a[0] != b[0] then a[0] as int - b[0] as int
    else StringCompareTo(a[1..], b[1..])
  }

  /** `Integer.compareTo` and `Double.compareTo` on ordinary numbers. */
  function IntCompareTo(x: int, y: int): int {
    if x < y then -1 else if x == y then 0 else 1
  }

  function RealCompareTo(x: real, y: real): int {
    if x < y then -1 else if x == y then 0 else 1
  }

  /** `fact.compareTo(expected)` for two values of the same class. */
  function CompareTo(x: Value, y: Value): int
    requires ClassOf(x) == ClassOf(y)
  {
    match (x, y)
    case (Text(a), Text(b)) => StringCompareTo(a, b)
    case (Int(i), Int(j)) => IntCompareTo(i, j)
    case (Dec(p), Dec(q)) => RealCompareTo(p, q)
  }

  // ---------------------------------------------------------------------------
  // Reference ordering, defined independently of compareTo

  /** `a` is below `b` in dictionary order, witnessed at position `k`: the two
      agree before `k`, and either `a` ends at `k` while `b` goes on, or both go
      on and `a` has the smaller character at `k`. */
  predicate LessAt(a: string, b: string, k: int) {
    && 0 <= k <= |a|
    && k <= |b|
    && a[..k] == b[..k]
    && ((k == |a| && k < |b|) || (k < |a| && k < |b| && a[k] < b[k]))
  }

  ghost predicate LexLess(a: string, b: string) {
    exists k :: LessAt(a, b, k)
  }

  /** Strict order on values of one class: numeric order on numbers,
      dictionary order on text. Values of different classes are unordered. */
  ghost predicate Less(x: Value, y: Value) {
    match (x, y)
    case (Text(a), Text(b)) => LexLess(a, b)
    case (Int(i), Int(j)) => i < j
    case (Dec(p), Dec(q)) => p < q
    case _ => false
  }

  // ---------------------------------------------------------------------------
  // compareTo agrees with the reference ordering

  lemma {:induction false} StringCompareZero(a: string, b: string)
    ensures StringCompareTo(a, b) == 0 <==> a == b
  {
    if |a| == 0 || |b| == 0 {
    } else if a[0] != b[0] {
    } else {
      StringCompareZero(a[1..], b[1..]);
      assert a == [a[0]] + a[1..];
      assert b == [b[0]] + b[1..];
    }
  }

  lemma {:induction false} StringCompareAntisymmetric(a: string, b: string)
    ensures StringCompareTo(a, b) == -StringCompareTo(b, a)
  {
    if |a| == 0 || |b| == 0 {
    } else if a[0] != b[0] {
    } else {
      StringCompareAntisymmetric(a[1..], b[1..]);
    }
  }

  lemma LessAtShift(a: string, b: string, k: int)
    requires |a| > 0 && |b| > 0 && a[0] == b[0] && k >= 1
    ensures LessAt(a, b, k) <==> LessAt(a[1..], b[1..], k - 1)
  {
    if k <= |a| && k <= |b| {
      assert a[..k] == [a[0]] + a[1..][..k - 1];
      assert b[..k] == [b[0]] + b[1..][..k - 1];
    }
  }

  lemma {:induction false} StringCompareNegative(a: string, b: string)
    ensures StringCompareTo(a, b) < 0 <==> LexLess(a, b)
  {
    if |a| == 0 || |b| == 0 {
      if |a| == 0 && |b| > 0 {
        assert LessAt(a, b, 0);
      }
    } else if a[0] != b[0] {
      if a[0] < b[0] {
        assert LessAt(a, b, 0);
      } else {
        assert !LexLess(a, b);
      }
    } else {
      StringCompareNegative(a[1..], b[1..]);
      if LexLess(a, b) {
        var k :| LessAt(a, b, k);
        LessAtShift(a, b, k);
      }
      if LexLess(a[1..], b[1..]) {
        var k :| LessAt(a[1..], b[1..], k);
        LessAtShift(a, b, k + 1);
      }
    }
  }

  lemma {:induction false} StringCompareTransitive(a: string, b: string, c: string)
    requires StringCompareTo(a, b) < 0 && StringCompareTo(b, c) < 0
    ensures StringCompareTo(a, c) < 0
  {
    if |a| == 0 || |b| == 0 || |c| == 0 {
    } else if a[0] == b[0] && b[0] == c[0] {
      StringCompareTransitive(a[1..], b[1..], c[1..]);
    }
  }

  /** Dictionary order on strings is a strict total order. */
  lemma LexLessIsStrictTotalOrder(a: string, b: string, c: string)
    ensures !LexLess(a, a)
    ensures a != b ==> LexLess(a, b) || LexLess(b, a)
    ensures !(LexLess(a, b) && LexLess(b, a))
    ensures LexLess(a, b) && LexLess(b, c) ==> LexLess(a, c)
  {
    StringCompareZero(a, a);
    StringCompareZero(a, b);
    StringCompareAntisymmetric(a, b);
    StringCompareNegative(a, a);
    StringCompareNegative(a, b);
    StringCompareNegative(b, a);
    StringCompareNegative(b, c);
    StringCompareNegative(a, c);
    if LexLess(a, b) && LexLess(b, c) {
      StringCompareTransitive(a, b, c);
    }
  }

  /** The sign of `compareTo` is the reference ordering: zero exactly on equal
      values, negative exactly when the fact is below, positive when above. */
  lemma CompareToMeaning(x: Value, y: Value)
    requires ClassOf(x) == ClassOf(y)
    ensures CompareTo(x, y) == 0 <==> x == y
    ensures CompareTo(x, y) < 0 <==> Less(x, y)
    ensures CompareTo(x, y) > 0 <==> Less(y, x)
  {
    match (x, y)
    case (Text(a), Text(b)) =>
      StringCompareZero(a, b);
      StringCompareNegative(a, b);
      StringCompareNegative(b, a);
      StringCompareAntisymmetric(a, b);
    case (Int(i), Int(j)) =>
    case (Dec(p), Dec(q)) =>
  }
}
