/**
 A scanned cart item (CartItem.java) and the positions of a cart that a rule
 works on. Everything but the discount is fixed when the item is created; the
 discount only ever changes through `SetDiscount`, which never lets it exceed
 the price.
 */
module Cart {

  datatype CartItem = CartItem(code: string, name: string, price: real, currency: string, discount: real)

  /** The cart: scan order, duplicates by code are separate entries. */
  type Cart = seq<CartItem>

  /** The fields a `CartItem` fixes at construction agree. */
  predicate SameIdentity(x: CartItem, y: CartItem) {
    x.code == y.code && x.name == y.name && x.price == y.price && x.currency == y.currency
  }

  /** The discount does not exceed the price, so the net price is not negative. */
  predicate Capped(item: CartItem) {
    item.discount <= item.price
  }

  function NetPrice(item: CartItem): real {
    item.price - item.discount
  }

  /** `new CartItem(code, name, price, currency)`: the discount starts at zero. */
  function NewCartItem(code: string, name: string, price: real, currency: string): (r: CartItem)
    ensures r.code == code && r.name == name && r.price == price && r.currency == currency
    ensures r.discount == 0.0
    ensures NetPrice(r) == price
  {
    CartItem(code, name, price, currency, 0.0)
  }

  /** `setDiscount(d)`: stores `d`, but never more than the price. There is no
      lower bound, so a negative `d` is stored as given. */
  function SetDiscount(item: CartItem, d: real): (r: CartItem)
    ensures SameIdentity(r, item)
    ensures r.discount <= d && r.discount <= item.price
    ensures r.discount == d || r.discount == item.price
    ensures Capped(r) && NetPrice(r) >= 0.0
  {
    if d > item.price then item.(discount := item.price) else item.(discount := d)
  }

  /** Storing the same discount again changes nothing, and the item's earlier
      discount plays no part in the outcome. */
  lemma SetDiscountIdempotent(item: CartItem, d: real, e: real)
    ensures SetDiscount(SetDiscount(item, d), d) == SetDiscount(item, d)
    ensures SetDiscount(item.(discount := e), d) == SetDiscount(item, d)
  {
  }

  // ---------------------------------------------------------------------------
  // Working sets

  /** A working set of a cart with `n` items: cart positions in strictly
      increasing order, i.e. a sub-list of the cart in cart order. */
  predicate IsSelection(ws: seq<nat>, n: nat) {
    && (forall i :: 0 <= i < |ws| ==> ws[i] < n)
    && (forall i, j :: 0 <= i < j < |ws| ==> ws[i] < ws[j])
  }

  /** The whole cart as a working set. */
  function AllPositions(n: nat): (ws: seq<nat>)
    ensures |ws| == n && IsSelection(ws, n)
    ensures forall i :: 0 <= i < n ==> ws[i] == i && i in ws
  {
    var ws := seq(n, i requires 0 <= i => i as nat);
    forall i | 0 <= i < n
      ensures i in ws
    {
      assert ws[i] == i;
    }
    ws
  }
}
