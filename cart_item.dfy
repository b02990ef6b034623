/** The cart line record: the columns of the "Cart" table plus product details that are
    never stored and are filled in from the product service for display. */
module CartItems {
  import opened Primitives

  datatype CartItem = CartItem(
    // mapped columns
    id: int,
    userId: int,
    productId: string,
    quantity: Int32,
    dateAdded: int,
    // not mapped: view data loaded from the product service
    productName: Option<string>,
    price: Option<int>,
    imageUrl: Option<string>,
    description: Option<string>)
  {
    /** The line's subtotal: the price, or 0 when no price was loaded, times the quantity. */
    function TotalPrice(): (total: int)
      ensures total == 0 <==> price.GetOr(0) == 0 || quantity == 0
      ensures price.GetOr(0) >= 0 && quantity >= 0 ==> total >= 0
    {
      price.GetOr(0) * quantity
    }
  }

  /** No view field is set: the state of a row as it is read from, or written to, the table. */
  predicate Unenriched(c: CartItem)
  {
    c.productName.None? && c.price.None? && c.imageUrl.None? && c.description.None?
  }

  /** The part of a line that the table stores: the line with its view fields cleared. */
  function Persisted(c: CartItem): (p: CartItem)
    ensures Unenriched(p)
    ensures p.id == c.id && p.userId == c.userId && p.productId == c.productId
    ensures p.quantity == c.quantity && p.dateAdded == c.dateAdded
    ensures Unenriched(c) ==> p == c
  {
    c.(productName := None, price := None, imageUrl := None, description := None)
  }

  /** `new CartItem()`: its property initialisers, with `DateTime.UtcNow` given as `now`. */
  function NewCartItem(now: int): (c: CartItem)
    ensures c.quantity == 1 && c.productId == ""
    ensures c.id == 0 && c.userId == 0 && c.dateAdded == now
    ensures Unenriched(c)
  {
    CartItem(0, 0, "", 1, now, None, None, None, None)
  }

  /** Without a price (the product lookup failed or found nothing) the subtotal is 0. */
  lemma TotalPriceWithoutPrice(c: CartItem)
    requires c.price.None?
    ensures c.TotalPrice() == 0
  {
  }

  lemma TotalPriceOfZeroQuantity(c: CartItem)
    requires c.quantity == 0
    ensures c.TotalPrice() == 0
  {
  }

  /** The subtotal is linear in the quantity. */
  lemma TotalPriceLinear(c: CartItem, q1: Int32, q2: Int32)
    requires InInt32(q1 + q2)
    ensures c.(quantity := q1 + q2).TotalPrice()
         == c.(quantity := q1).TotalPrice() + c.(quantity := q2).TotalPrice()
  {
    var p := c.price.GetOr(0);
    assert p * (q1 + q2) == p * q1 + p * q2;
  }

  /** The subtotal depends on the price and the quantity only. */
  lemma TotalPriceIgnoresOtherFields(c: CartItem, d: CartItem)
    requires c.price == d.price && c.quantity == d.quantity
    ensures c.TotalPrice() == d.TotalPrice()
  {
  }
}
