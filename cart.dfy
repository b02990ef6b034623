/** The per-user shopping cart: a table of cart rows and the controller actions that read
    and change it. The signed-in user is an optional id (absent when nobody is signed in);
    the product service is a parameter; each action is one atomic step on the table. */
module Cart {
  import opened Primitives
  import opened Catalog
  import opened CartItems

  /** What an action reports back (its message or redirect). */
  datatype Outcome =
    | NotLoggedIn                     // "Please log in ..." and a redirect to the login page
    | InvalidProduct                  // an empty product id
    | ProductNotFound                 // the product lookup returned nothing
    | NotEnoughStock(available: int)  // the requested quantity exceeds the stock
    | AddFailed                       // the product lookup threw; the action's catch reports it
    | Added(productName: string)
    | Updated
    | Removed
    | NotInCart                       // no row with that id belongs to the user
    | Cleared

  // ---------------------------------------------------------------------------
  // Queries over the rows

  /** A row of `userId` for `productId`. */
  predicate IsLine(c: CartItem, userId: int, productId: string)
  {
    c.userId == userId && c.productId == productId
  }

  /** The row with key `id`, provided it belongs to `userId`. */
  predicate IsOwnedRow(c: CartItem, id: int, userId: int)
  {
    c.id == id && c.userId == userId
  }

  function FindLine(rows: seq<CartItem>, userId: int, productId: string): Option<nat>
  {
    FirstIndex(rows, c => IsLine(c, userId, productId))
  }

  function FindOwnedRow(rows: seq<CartItem>, id: int, userId: int): Option<nat>
  {
    FirstIndex(rows, c => IsOwnedRow(c, id, userId))
  }

  /** The rows of one user, in table order (`Where(c => c.UserId == userId)`). */
  function UserRows(rows: seq<CartItem>, userId: int): (r: seq<CartItem>)
    ensures forall c :: c in r <==> c in rows && c.userId == userId
    ensures |r| <= |rows|
  {
    if rows == [] then []
    else (if rows[0].userId == userId then [rows[0]] else []) + UserRows(rows[1..], userId)
  }

  /** The rows that remain once every row of `userId` is deleted. */
  function WithoutUser(rows: seq<CartItem>, userId: int): (r: seq<CartItem>)
    ensures forall c :: c in r <==> c in rows && c.userId != userId
    ensures |r| <= |rows|
  {
    if rows == [] then []
    else (if rows[0].userId != userId then [rows[0]] else []) + WithoutUser(rows[1..], userId)
  }

  /** Row keys are distinct (the table's primary key). */
  ghost predicate DistinctIds(rows: seq<CartItem>)
  {
    forall i, j :: 0 <= i < j < |rows| ==> rows[i].id != rows[j].id
  }

  /** Keys are distinct, positive and below the next key to be issued, and no row carries
      view data: the state the table can be in. */
  ghost predicate WellKeyed(rows: seq<CartItem>, nextId: int)
  {
    && 1 <= nextId
    && DistinctIds(rows)
    && (forall j :: 0 <= j < |rows| ==> 1 <= rows[j].id < nextId && Unenriched(rows[j]))
  }

  /** At most one row per (user, product). The database does not enforce this. */
  ghost predicate UniqueLines(rows: seq<CartItem>)
  {
    forall i, j :: 0 <= i < j < |rows| && rows[i].userId == rows[j].userId ==>
      rows[i].productId != rows[j].productId
  }

  // ---------------------------------------------------------------------------
  // AddToCart

  /** The result of AddToCart's checks, made in this order: a signed-in user, a non-empty
      product id, a product lookup that neither throws nor finds nothing, and enough
      stock for the requested quantity alone. */
  function AddDecision(user: Option<int>, productId: string, quantity: Int32, service: Service): (r: Outcome)
    ensures r.NotLoggedIn? <==> user.None?
    ensures r.InvalidProduct? <==> user.Some? && productId == ""
    ensures r.Added? <==>
      && user.Some? && productId != ""
      && service(productId).Found? && service(productId).product.stockAvailable >= quantity
    ensures r.Added? ==> r.productName == service(productId).product.productName
    ensures r.NotEnoughStock? ==>
      service(productId).Found? && r.available == service(productId).product.stockAvailable < quantity
    ensures r.ProductNotFound? ==> service(productId).NotFound?
    ensures r.AddFailed? ==> service(productId).Failed?
    ensures !r.Updated? && !r.Removed? && !r.NotInCart? && !r.Cleared?
  {
    if user.None? then NotLoggedIn
    else if productId == "" then InvalidProduct
    else match service(productId)
      case Failed => AddFailed
      case NotFound => ProductNotFound
      case Found(p) =>
        if p.stockAvailable < quantity then NotEnoughStock(p.stockAvailable) else Added(p.productName)
  }

  /** The row AddToCart creates when the user has no row for the product. */
  function NewLine(id: int, userId: int, productId: string, quantity: Int32, now: int): CartItem
  {
    NewCartItem(now).(id := id, userId := userId, productId := productId, quantity := quantity)
  }

  /** The table after an accepted AddToCart: the user's row for the product grows by
      `quantity` (with 32-bit wrap-around), or else a new row with key `newId` is appended. */
  function AddLine(rows: seq<CartItem>, newId: int, userId: int, productId: string, quantity: Int32, now: int): seq<CartItem>
  {
    match FindLine(rows, userId, productId)
    case Some(k) => rows[k := rows[k].(quantity := Wrap32(rows[k].quantity + quantity))]
    case None => rows + [NewLine(newId, userId, productId, quantity, now)]
  }

  /** An existing row grows by exactly `quantity`; no row is added and no other row changes. */
  lemma AddMergesIntoExistingLine(rows: seq<CartItem>, newId: int, userId: int, productId: string,
                                  quantity: Int32, now: int, k: nat)
    requires k < |rows| && IsLine(rows[k], userId, productId) && UniqueLines(rows)
    ensures var r := AddLine(rows, newId, userId, productId, quantity, now);
      && |r| == |rows|
      && r[k] == rows[k].(quantity := Wrap32(rows[k].quantity + quantity))
      && (InInt32(rows[k].quantity + quantity) ==> r[k].quantity == rows[k].quantity + quantity)
      && (forall j :: 0 <= j < |rows| && j != k ==> r[j] == rows[j])
  {
    FoundLineIsTheLine(rows, userId, productId, k);
  }

  /** With unique (user, product) rows, the row found is the only one there is. */
  lemma FoundLineIsTheLine(rows: seq<CartItem>, userId: int, productId: string, k: nat)
    requires k < |rows| && IsLine(rows[k], userId, productId) && UniqueLines(rows)
    ensures FindLine(rows, userId, productId) == Some(k)
  {
    assert (c => IsLine(c, userId, productId))(rows[k]);
    var i := FindLine(rows, userId, productId).value;
    assert rows[i].userId == rows[k].userId && rows[i].productId == rows[k].productId;
  }

  /** Without an existing row exactly one row is appended, with the given user, product and
      quantity and no view data; every existing row is kept as it was. */
  lemma AddInsertsNewLine(rows: seq<CartItem>, newId: int, userId: int, productId: string,
                          quantity: Int32, now: int)
    requires forall j :: 0 <= j < |rows| ==> !IsLine(rows[j], userId, productId)
    ensures var r := AddLine(rows, newId, userId, productId, quantity, now);
      && |r| == |rows| + 1
      && r[..|rows|] == rows
      && IsLine(r[|rows|], userId, productId)
      && r[|rows|].quantity == quantity && r[|rows|].id == newId && r[|rows|].dateAdded == now
      && Unenriched(r[|rows|])
  {
  }

  /** AddLine keeps the table free of duplicate (user, product) rows. */
  lemma AddPreservesUniqueLines(rows: seq<CartItem>, newId: int, userId: int, productId: string,
                                quantity: Int32, now: int)
    requires UniqueLines(rows)
    ensures UniqueLines(AddLine(rows, newId, userId, productId, quantity, now))
  {
    var r := AddLine(rows, newId, userId, productId, quantity, now);
    forall i, j | 0 <= i < j < |r| && r[i].userId == r[j].userId
      ensures r[i].productId != r[j].productId
    {
      if j == |rows| {
        assert r[i] == rows[i];
      }
    }
  }

  /** A fresh key keeps the table well keyed. */
  lemma AddKeepsWellKeyed(rows: seq<CartItem>, nextId: int, userId: int, productId: string,
                          quantity: Int32, now: int)
    requires WellKeyed(rows, nextId)
    ensures WellKeyed(AddLine(rows, nextId, userId, productId, quantity, now),
                      if FindLine(rows, userId, productId).Some? then nextId else nextId + 1)
  {
  }

  /** Two accepted adds for a product the user has no row for give one row whose quantity
      is the sum of the two (with 32-bit wrap-around); every other row is kept. */
  lemma {:induction false} TwoAddsGiveOneLine(rows: seq<CartItem>, id1: int, id2: int, userId: int,
                                              productId: string, d1: Int32, d2: Int32, now1: int, now2: int)
    requires forall j :: 0 <= j < |rows| ==> !IsLine(rows[j], userId, productId)
    ensures var r := AddLine(AddLine(rows, id1, userId, productId, d1, now1), id2, userId, productId, d2, now2);
      && |r| == |rows| + 1
      && r[..|rows|] == rows
      && IsLine(r[|rows|], userId, productId)
      && r[|rows|].quantity == Wrap32(d1 + d2)
      && (InInt32(d1 + d2) ==> r[|rows|].quantity == d1 + d2)
  {
    var r1 := AddLine(rows, id1, userId, productId, d1, now1);
    AddInsertsNewLine(rows, id1, userId, productId, d1, now1);
    assert FindLine(r1, userId, productId) == Some(|rows|) by {
      forall j | 0 <= j < |rows| ensures !IsLine(r1[j], userId, productId) {
        assert r1[j] == rows[j];
      }
    }
  }

  /** A second accepted add to an existing row adds both quantities to it. */
  lemma {:induction false} TwoAddsToExistingLine(rows: seq<CartItem>, id1: int, id2: int, userId: int,
                                                 productId: string, d1: Int32, d2: Int32, now1: int, now2: int, k: nat)
    requires k < |rows| && IsLine(rows[k], userId, productId) && UniqueLines(rows)
    ensures var r := AddLine(AddLine(rows, id1, userId, productId, d1, now1), id2, userId, productId, d2, now2);
      && r == rows[k := rows[k].(quantity := Wrap32(rows[k].quantity + d1 + d2))]
  {
    var r1 := AddLine(rows, id1, userId, productId, d1, now1);
    AddMergesIntoExistingLine(rows, id1, userId, productId, d1, now1, k);
    AddPreservesUniqueLines(rows, id1, userId, productId, d1, now1);
    AddMergesIntoExistingLine(r1, id2, userId, productId, d2, now2, k);
    Wrap32Add(rows[k].quantity + d1, d2);
  }

  /** The stock check looks at the requested quantity only, so a row can reach a quantity
      above the product's stock through two accepted adds. */
  lemma MergedQuantityCanExceedStock(rows: seq<CartItem>, id1: int, id2: int, userId: int,
                                     productId: string, d1: Int32, d2: Int32, now1: int, now2: int,
                                     service: Service)
    requires forall j :: 0 <= j < |rows| ==> !IsLine(rows[j], userId, productId)
    requires productId != "" && service(productId).Found?
    requires 0 <= d1 <= service(productId).product.stockAvailable
    requires 0 <= d2 <= service(productId).product.stockAvailable
    requires InInt32(d1 + d2)
    ensures AddDecision(Some(userId), productId, d1, service).Added?
    ensures AddDecision(Some(userId), productId, d2, service).Added?
    ensures var r := AddLine(AddLine(rows, id1, userId, productId, d1, now1), id2, userId, productId, d2, now2);
      r[|rows|].quantity == d1 + d2 && IsLine(r[|rows|], userId, productId)
  {
    TwoAddsGiveOneLine(rows, id1, id2, userId, productId, d1, d2, now1, now2);
  }

  // ---------------------------------------------------------------------------
  // UpdateQuantity, RemoveFromCart, ClearCart

  /** The table after deleting the user's row with key `id`, if there is one. */
  function RemoveLine(rows: seq<CartItem>, id: int, userId: int): seq<CartItem>
  {
    match FindOwnedRow(rows, id, userId)
    case Some(k) => rows[..k] + rows[k + 1..]
    case None => rows
  }

  /** The table after setting the quantity of the user's row with key `id`, if there is one. */
  function SetLineQuantity(rows: seq<CartItem>, id: int, userId: int, quantity: Int32): seq<CartItem>
  {
    match FindOwnedRow(rows, id, userId)
    case Some(k) => rows[k := rows[k].(quantity := quantity)]
    case None => rows
  }

  /** RemoveFromCart deletes the row with key `id` if it belongs to the user, and nothing else;
      in particular a row of another user is never deleted. */
  lemma RemoveDeletesOnlyOwnedRow(rows: seq<CartItem>, id: int, userId: int)
    requires DistinctIds(rows)
    ensures var r := RemoveLine(rows, id, userId);
      && (forall c :: c in r <==> c in rows && !IsOwnedRow(c, id, userId))
      && |r| == |rows| - (if FindOwnedRow(rows, id, userId).Some? then 1 else 0)
    ensures FindOwnedRow(rows, id, userId).None? ==> RemoveLine(rows, id, userId) == rows
  {
    match FindOwnedRow(rows, id, userId)
    case None =>
    case Some(k) =>
      assert IsOwnedRow(rows[k], id, userId);
      RemoveAtKeepsOthers(rows, k);
  }

  /** Deleting the row at `k` keeps exactly the rows with other keys. */
  lemma RemoveAtKeepsOthers(rows: seq<CartItem>, k: nat)
    requires DistinctIds(rows) && k < |rows|
    ensures forall c :: c in rows[..k] + rows[k + 1..] <==> c in rows && c.id != rows[k].id
  {
    var r := rows[..k] + rows[k + 1..];
    assert forall i :: 0 <= i < |r| ==> r[i] == rows[if i < k then i else i + 1];
    forall c | c in rows && c.id != rows[k].id ensures c in r {
      var i :| 0 <= i < |rows| && rows[i] == c;
      assert r[if i < k then i else i - 1] == c;
    }
  }

  /** UpdateQuantity with a positive quantity sets the quantity of the user's row with key
      `id` and changes nothing else; rows of other users are untouched. */
  lemma SetQuantityChangesOnlyOwnedRow(rows: seq<CartItem>, id: int, userId: int, quantity: Int32)
    requires DistinctIds(rows)
    ensures var r := SetLineQuantity(rows, id, userId, quantity);
      && |r| == |rows|
      && (forall j :: 0 <= j < |rows| && IsOwnedRow(rows[j], id, userId) ==>
            r[j] == rows[j].(quantity := quantity))
      && (forall j :: 0 <= j < |rows| && !IsOwnedRow(rows[j], id, userId) ==> r[j] == rows[j])
  {
    match FindOwnedRow(rows, id, userId)
    case None =>
    case Some(k) =>
      forall j | 0 <= j < |rows| && IsOwnedRow(rows[j], id, userId) ensures j == k {
        assert (c => IsOwnedRow(c, id, userId))(rows[j]);
      }
  }

  /** Deleting one row keeps the keys distinct and the (user, product) rows unique. */
  lemma RemovePreservesInvariants(rows: seq<CartItem>, id: int, userId: int)
    ensures DistinctIds(rows) ==> DistinctIds(RemoveLine(rows, id, userId))
    ensures UniqueLines(rows) ==> UniqueLines(RemoveLine(rows, id, userId))
  {
    match FindOwnedRow(rows, id, userId)
    case None =>
    case Some(k) =>
      var r := rows[..k] + rows[k + 1..];
      assert forall i :: 0 <= i < |r| ==> r[i] == rows[if i < k then i else i + 1];
  }

  /** Setting a quantity changes no key, user or product. */
  lemma SetQuantityPreservesInvariants(rows: seq<CartItem>, id: int, userId: int, quantity: Int32)
    ensures DistinctIds(rows) ==> DistinctIds(SetLineQuantity(rows, id, userId, quantity))
    ensures UniqueLines(rows) ==> UniqueLines(SetLineQuantity(rows, id, userId, quantity))
  {
  }

  /** ClearCart's result together with the user's rows accounts for every row once. */
  lemma {:induction false} ClearPartitions(rows: seq<CartItem>, userId: int)
    ensures |WithoutUser(rows, userId)| + |UserRows(rows, userId)| == |rows|
  {
    if rows != [] {
      ClearPartitions(rows[1..], userId);
    }
  }

  /** Deleting a user's rows keeps the keys distinct. */
  lemma {:induction false} ClearKeepsDistinctIds(rows: seq<CartItem>, userId: int)
    requires DistinctIds(rows)
    ensures DistinctIds(WithoutUser(rows, userId))
  {
    if rows != [] {
      var tail := WithoutUser(rows[1..], userId);
      ClearKeepsDistinctIds(rows[1..], userId);
      if rows[0].userId != userId {
        var r := [rows[0]] + tail;
        forall j | 0 < j < |r| ensures r[0].id != r[j].id {
          assert r[j] in rows[1..];
          var m :| 0 <= m < |rows| - 1 && rows[1..][m] == r[j];
          assert rows[m + 1] == r[j];
        }
      }
    }
  }

  /** Deleting a user's rows keeps the (user, product) rows unique. */
  lemma {:induction false} ClearKeepsUniqueLines(rows: seq<CartItem>, userId: int)
    requires UniqueLines(rows)
    ensures UniqueLines(WithoutUser(rows, userId))
  {
    if rows != [] {
      var tail := WithoutUser(rows[1..], userId);
      ClearKeepsUniqueLines(rows[1..], userId);
      if rows[0].userId != userId {
        var r := [rows[0]] + tail;
        forall j | 0 < j < |r| && r[0].userId == r[j].userId ensures r[0].productId != r[j].productId {
          assert r[j] in rows[1..];
          var m :| 0 <= m < |rows| - 1 && rows[1..][m] == r[j];
          assert rows[m + 1] == r[j];
        }
      }
    }
  }

  // ---------------------------------------------------------------------------
  // GetCartCount

  /** The exact sum of the rows' quantities. */
  function TotalQuantity(rows: seq<CartItem>): int
  {
    if rows == [] then 0 else rows[0].quantity + TotalQuantity(rows[1..])
  }

  /** `Sum(item => item.Quantity)` over `int`: adds from the left starting at `acc` and fails
      (throws an overflow exception) as soon as a running total leaves the 32-bit range. */
  function CheckedSum(acc: Int32, rows: seq<CartItem>): (r: Option<Int32>)
    ensures r.Some? ==> r.value == acc + TotalQuantity(rows)
    decreases |rows|
  {
    if rows == [] then Some(acc)
    else if InInt32(acc + rows[0].quantity) then CheckedSum(acc + rows[0].quantity, rows[1..])
    else None
  }

  /** Every running total, from `acc` through each prefix of `rows`, fits in 32 bits. */
  ghost predicate RunningTotalsFit(acc: int, rows: seq<CartItem>)
  {
    forall k :: 0 <= k <= |rows| ==> InInt32(acc + TotalQuantity(rows[..k]))
  }

  /** The checked sum succeeds exactly when no running total leaves the 32-bit range. */
  lemma {:induction false} CheckedSumSucceedsIffRunningTotalsFit(acc: Int32, rows: seq<CartItem>)
    ensures CheckedSum(acc, rows).Some? <==> RunningTotalsFit(acc, rows)
    decreases |rows|
  {
    assert rows[..0] == [];
    if rows != [] {
      var tail := rows[1..];
      forall k | 0 <= k < |rows|
        ensures acc + TotalQuantity(rows[..k + 1]) == acc + rows[0].quantity + TotalQuantity(tail[..k])
      {
        assert rows[..k + 1][1..] == tail[..k];
      }
      if InInt32(acc + rows[0].quantity) {
        CheckedSumSucceedsIffRunningTotalsFit(acc + rows[0].quantity, tail);
        if RunningTotalsFit(acc + rows[0].quantity, tail) {
          forall k | 0 <= k <= |rows| ensures InInt32(acc + TotalQuantity(rows[..k])) {
            if k > 0 {
              assert InInt32(acc + rows[0].quantity + TotalQuantity(tail[..k - 1]));
            }
          }
        } else {
          var k :| 0 <= k <= |tail| && !InInt32(acc + rows[0].quantity + TotalQuantity(tail[..k]));
          assert !InInt32(acc + TotalQuantity(rows[..k + 1]));
        }
      } else {
        assert !InInt32(acc + TotalQuantity(rows[..1]));
      }
    }
  }

  /** With no negative quantities the running totals only grow, so the checked sum fails
      exactly when the total exceeds the 32-bit range. */
  lemma {:induction false} CheckedSumOfNonNegative(acc: Int32, rows: seq<CartItem>)
    requires acc >= 0
    requires forall j :: 0 <= j < |rows| ==> rows[j].quantity >= 0
    ensures CheckedSum(acc, rows).Some? <==> acc + TotalQuantity(rows) <= MaxInt32
    decreases |rows|
  {
    if rows != [] {
      NonNegativeTotal(rows[1..]);
      if InInt32(acc + rows[0].quantity) {
        CheckedSumOfNonNegative(acc + rows[0].quantity, rows[1..]);
      }
    }
  }

  lemma {:induction false} NonNegativeTotal(rows: seq<CartItem>)
    requires forall j :: 0 <= j < |rows| ==> rows[j].quantity >= 0
    ensures TotalQuantity(rows) >= 0
  {
    if rows != [] {
      NonNegativeTotal(rows[1..]);
    }
  }

  // ---------------------------------------------------------------------------
  // Index

  /** One row as Index shows it: the product's details copied in when the lookup found the
      product (a missing description becomes empty), the row as stored otherwise. */
  function Enrich(c: CartItem, lookup: Lookup): CartItem
  {
    match lookup
    case Found(p) =>
      c.(productName := Some(p.productName), price := Some(p.price),
         imageUrl := p.imageUrl, description := Some(p.description.GetOr("")))
    case _ => c
  }

  /** Enrichment never touches a stored column; a failed or empty lookup leaves the view
      fields unset; a found product fills in its name, price, image and description. */
  lemma EnrichOnlySetsViewFields(c: CartItem, lookup: Lookup)
    requires Unenriched(c)
    ensures Persisted(Enrich(c, lookup)) == c
    ensures !lookup.Found? ==> Unenriched(Enrich(c, lookup))
    ensures lookup.Found? ==>
      && Enrich(c, lookup).productName == Some(lookup.product.productName)
      && Enrich(c, lookup).price == Some(lookup.product.price)
      && Enrich(c, lookup).imageUrl == lookup.product.imageUrl
      && Enrich(c, lookup).description.Some?
      && (lookup.product.description.Some? ==>
            Enrich(c, lookup).description == lookup.product.description)
    ensures Enrich(c, lookup).TotalPrice() ==
      if lookup.Found? then lookup.product.price * c.quantity else 0
  {
  }

  // ---------------------------------------------------------------------------
  // The table

  class CartTable {
    /** The "Cart" table, in the order the database returns its rows. */
    var rows: seq<CartItem>
    /** The key the database's identity column gives the next inserted row. */
    var nextId: int

    ghost predicate Valid()
      reads this
    {
      WellKeyed(rows, nextId)
    }

    constructor()
      ensures Valid() && rows == []
    {
      rows := [];
      nextId := 1;
    }

    /** AddToCart: the checks of AddDecision, then a merge into the user's row for the
        product or the insertion of a new row. */
    method AddToCart(user: Option<int>, productId: string, quantity: Int32, service: Service, now: int)
      returns (outcome: Outcome)
      requires Valid()
      modifies this
      ensures Valid()
      ensures outcome == AddDecision(user, productId, quantity, service)
      ensures outcome.Added? ==> rows == AddLine(old(rows), old(nextId), user.value, productId, quantity, now)
      ensures outcome.Added? ==>
        nextId == if FindLine(old(rows), user.value, productId).Some? then old(nextId) else old(nextId) + 1
      ensures !outcome.Added? ==> rows == old(rows) && nextId == old(nextId)
      ensures UniqueLines(old(rows)) ==> UniqueLines(rows)
    {
      if user.None? {
        return NotLoggedIn;
      }
      if productId == "" {
        return InvalidProduct;
      }
      var lookup := service(productId);
      if lookup.Failed? {
        return AddFailed;
      }
      if lookup.NotFound? {
        return ProductNotFound;
      }
      var product := lookup.product;
      if product.stockAvailable < quantity {
        return NotEnoughStock(product.stockAvailable);
      }
      var userId := user.value;
      if UniqueLines(rows) {
        AddPreservesUniqueLines(rows, nextId, userId, productId, quantity, now);
      }
      AddKeepsWellKeyed(rows, nextId, userId, productId, quantity, now);
      var existing := FindLine(rows, userId, productId);
      if existing.Some? {
        var k := existing.value;
        rows := rows[k := rows[k].(quantity := Wrap32(rows[k].quantity + quantity))];
      } else {
        rows := rows + [NewLine(nextId, userId, productId, quantity, now)];
        nextId := nextId + 1;
      }
      outcome := Added(product.productName);
    }

    /** RemoveFromCart: deletes the row with key `id` when it belongs to the signed-in user. */
    method RemoveFromCart(user: Option<int>, id: int) returns (outcome: Outcome)
      requires Valid()
      modifies this
      ensures Valid() && nextId == old(nextId)
      ensures user.None? ==> outcome == NotLoggedIn && rows == old(rows)
      ensures user.Some? ==> rows == RemoveLine(old(rows), id, user.value)
      ensures user.Some? ==>
        outcome == if FindOwnedRow(old(rows), id, user.value).Some? then Removed else NotInCart
      ensures UniqueLines(old(rows)) ==> UniqueLines(rows)
    {
      if user.None? {
        return NotLoggedIn;
      }
      RemovePreservesInvariants(rows, id, user.value);
      var found := FindOwnedRow(rows, id, user.value);
      if found.Some? {
        var k := found.value;
        rows := rows[..k] + rows[k + 1..];
        outcome := Removed;
      } else {
        outcome := NotInCart;
      }
    }

    /** UpdateQuantity: a quantity of zero or less removes the row, exactly as RemoveFromCart;
        otherwise the quantity of the user's row with key `id` is set. */
    method UpdateQuantity(user: Option<int>, id: int, quantity: Int32) returns (outcome: Outcome)
      requires Valid()
      modifies this
      ensures Valid() && nextId == old(nextId)
      ensures user.None? ==> outcome == NotLoggedIn && rows == old(rows)
      ensures user.Some? && quantity <= 0 ==>
        && rows == RemoveLine(old(rows), id, user.value)
        && outcome == if FindOwnedRow(old(rows), id, user.value).Some? then Removed else NotInCart
      ensures user.Some? && quantity > 0 ==>
        && rows == SetLineQuantity(old(rows), id, user.value, quantity)
        && outcome == if FindOwnedRow(old(rows), id, user.value).Some? then Updated else NotInCart
      ensures UniqueLines(old(rows)) ==> UniqueLines(rows)
    {
      if user.None? {
        return NotLoggedIn;
      }
      if quantity <= 0 {
        outcome := RemoveFromCart(user, id);
        return;
      }
      SetQuantityPreservesInvariants(rows, id, user.value, quantity);
      var found := FindOwnedRow(rows, id, user.value);
      if found.Some? {
        var k := found.value;
        rows := rows[k := rows[k].(quantity := quantity)];
        outcome := Updated;
      } else {
        outcome := NotInCart;
      }
    }

    /** ClearCart: deletes every row of the signed-in user. */
    method ClearCart(user: Option<int>) returns (outcome: Outcome)
      requires Valid()
      modifies this
      ensures Valid() && nextId == old(nextId)
      ensures user.None? ==> outcome == NotLoggedIn && rows == old(rows)
      ensures user.Some? ==> outcome == Cleared && rows == WithoutUser(old(rows), user.value)
      ensures UniqueLines(old(rows)) ==> UniqueLines(rows)
    {
      if user.None? {
        return NotLoggedIn;
      }
      ClearKeepsDistinctIds(rows, user.value);
      if UniqueLines(rows) {
        ClearKeepsUniqueLines(rows, user.value);
      }
      rows := WithoutUser(rows, user.value);
      outcome := Cleared;
    }

    /** GetCartCount: the sum of the user's quantities; 0 without a user and 0 when a running
        total of the sum overflows (the overflow exception is caught). */
    function GetCartCount(user: Option<int>): (count: int)
      reads this
      ensures InInt32(count)
      ensures user.None? ==> count == 0
      ensures user.Some? ==>
        count == if RunningTotalsFit(0, UserRows(rows, user.value))
                 then TotalQuantity(UserRows(rows, user.value)) else 0
      ensures user.Some? && (forall c :: c in UserRows(rows, user.value) ==> c.quantity >= 0) ==>
        count == if TotalQuantity(UserRows(rows, user.value)) <= MaxInt32
                 then TotalQuantity(UserRows(rows, user.value)) else 0
    {
      if user.None? then 0
      else
        var mine := UserRows(rows, user.value);
        CheckedSumSucceedsIffRunningTotalsFit(0, mine);
        CheckedSumOfNonNegativeRows(mine);
        match CheckedSum(0, mine)
        case Some(total) => total
        case None => 0
    }

    /** Index: the signed-in user's rows, each enriched from its own product lookup. A lookup
        that fails or finds nothing leaves that row's view fields unset and does not affect
        any other row. The table itself is not changed. */
    method Index(user: Option<int>, service: Service) returns (view: Option<seq<CartItem>>)
      ensures view.None? <==> user.None?
      ensures view.Some? ==>
        var mine := UserRows(rows, user.value);
        && |view.value| == |mine|
        && forall j :: 0 <= j < |mine| ==> view.value[j] == Enrich(mine[j], service(mine[j].productId))
    {
      if user.None? {
        return None;
      }
      var items := UserRows(rows, user.value);
      ghost var mine := items;
      for i := 0 to |items|
        invariant |items| == |mine|
        invariant forall j :: 0 <= j < i ==> items[j] == Enrich(mine[j], service(mine[j].productId))
        invariant forall j :: i <= j < |items| ==> items[j] == mine[j]
      {
        var item := items[i];
        var lookup := service(item.productId);
        if lookup.Found? {
          var product := lookup.product;
          item := item.(productName := Some(product.productName));
          item := item.(price := Some(product.price));
          item := item.(imageUrl := product.imageUrl);
          item := item.(description := Some(product.description.GetOr("")));
        }
        items := items[i := item];
      }
      return Some(items);
    }
  }

  /** Helper for GetCartCount: CheckedSumOfNonNegative stated over membership. */
  lemma CheckedSumOfNonNegativeRows(mine: seq<CartItem>)
    ensures (forall c :: c in mine ==> c.quantity >= 0) ==>
      (CheckedSum(0, mine).Some? <==> TotalQuantity(mine) <= MaxInt32)
  {
    if forall c :: c in mine ==> c.quantity >= 0 {
      assert forall j :: 0 <= j < |mine| ==> mine[j] in mine;
      CheckedSumOfNonNegative(0, mine);
    }
  }
}
