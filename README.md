# ABC Retailers cart and accounts, modelled in Dafny

This project models the MVC front end of the ABC Retailers shop. It covers three parts:

- the per-user shopping cart: the `Cart` table and the actions of `CartController`;
- the two record types the cart and the order pages compute with: `CartItem` with its
  `TotalPrice`, and `Order` with its `TotalAmount` and `OrderStatus`;
- the account table behind `AuthController`: registration and the credential check of sign-in.

Each controller action is one atomic step on its table.

- The signed-in user reaches the cart actions as an optional integer id. It is absent when
  nobody is signed in. Otherwise it is the `NameIdentifier` of the `Identity` that `Login`
  or `Register` issues.
- The remote product service (`GetProductAsync`) is a parameter `Service` that maps a product
  id to one of three replies: `Found(product)`, `NotFound` (the call returned `null`), or
  `Failed` (the call threw).
- `DateTime.UtcNow` is an integer parameter `now`.
- Decimal prices are integers in the smallest currency unit.

Files:

- `primitives.dfy`: `Option`; C#'s 32-bit `int` with unchecked wrap-around (`Wrap32`); a
  first-match search (`FirstIndex`).
- `catalog.dfy`: the product record and the three replies of the product service.
- `cart_item.dfy`: `CartItem`. It holds the mapped columns and the unmapped view fields, which
  are `None` until the product service fills them in.
- `order.dfy`: `Order` and `OrderStatus`.
- `cart.dfy`: the class `CartTable`. It holds the rows (`seq<CartItem>`, in the order the
  database returns them) and the next key the identity column will issue. Its methods are the
  controller actions. Each method is specified by a pure function of the old rows (`AddLine`,
  `RemoveLine`, `SetLineQuantity`, `WithoutUser`, `Enrich`, `CheckedSum`). Lemmas state what
  those functions do.
- `auth.dfy`: the class `UserTable` with `Register`, the pure credential check `Login`, and
  the lemmas connecting them.

`Valid()` on `CartTable` holds three facts: row keys are distinct, they are below the next
key, and no stored row carries view data. The rule "at most one row per (user, product)"
(`UniqueLines`) is not part of `Valid()`, because the database does not enforce it. Instead,
every mutating action is proved to preserve it.

Two quirks of the source are modelled as written:

- The stock check compares only the requested quantity with the stock, never the merged
  total (`MergedQuantityCanExceedStock`).
- `AddToCart` accepts zero or negative quantities.

## Model

| member | source | states |
|---|---|---|
| `Primitives.Wrap32` | ABCRetailers/Controllers/CartController.cs:109 | the result of unchecked `int` addition: it equals the exact sum when that sum fits in 32 bits, and in every case differs from it by a multiple of 2^32 |
| `Primitives.FirstIndex` | ABCRetailers/Controllers/CartController.cs:103-104 | the `FirstOrDefault` query: it returns an index that matches, with no earlier match, or it returns nothing exactly when no element matches |
| `CartItems.Persisted` | ABCRetailers/Models/CartItem.cs:9-39 | the stored part of a cart line: the same id, user, product, quantity and date, and no view field (`[NotMapped]`) set |
| `CartItems.CartItem.TotalPrice` | ABCRetailers/Models/CartItem.cs:42 | the line subtotal `(Price ?? 0) * Quantity`: zero exactly when no price is loaded, the price is 0 or the quantity is 0; never negative for a non-negative price and quantity |
| `CartItems.NewCartItem` | ABCRetailers/Models/CartItem.cs:11-22 | a new cart line has quantity 1, an empty product id and the given timestamp, and no view data |
| `CartItems.TotalPriceWithoutPrice` | ABCRetailers/Models/CartItem.cs:42 | without a price (no product loaded) the line total is 0 |
| `CartItems.TotalPriceOfZeroQuantity` | ABCRetailers/Models/CartItem.cs:42 | a line with quantity 0 totals 0 |
| `CartItems.TotalPriceLinear` | ABCRetailers/Models/CartItem.cs:42 | the line total is linear in the quantity |
| `CartItems.TotalPriceIgnoresOtherFields` | ABCRetailers/Models/CartItem.cs:42 | the line total depends only on the price and the quantity |
| `Orders.NewOrder` | ABCRetailers/Models/Order.cs:13-34 | a new order has status `Submitted`, empty strings, quantity and unit price 0, no date, and total 0 |
| `Orders.Order.TotalAmount` | ABCRetailers/Models/Order.cs:30 | the order total `UnitPrice * Quantity`: zero exactly when the unit price or the quantity is 0; never negative for a non-negative unit price and quantity |
| `Orders.ExactlyFourStatuses` | ABCRetailers/Models/Order.cs:5-11 | `OrderStatus` has exactly the four distinct members Submitted, Processing, Completed and Cancelled |
| `Orders.TotalAmountIgnoresStatus` | ABCRetailers/Models/Order.cs:26-34 | changing an order's status never changes its total |
| `Orders.TotalAmountLinear` | ABCRetailers/Models/Order.cs:30 | the order total (unit price × quantity) is linear in the quantity |
| `Cart.UserRows` | ABCRetailers/Controllers/CartController.cs:35-37 | the user's rows: a row is in the result exactly when it is in the table and belongs to that user |
| `Cart.WithoutUser` | ABCRetailers/Controllers/CartController.cs:222-226 | what is left after the user's rows are deleted: a row remains exactly when it belongs to another user |
| `Cart.AddDecision` | ABCRetailers/Controllers/CartController.cs:74-100 | AddToCart accepts exactly when a user is signed in, the product id is not empty, the lookup finds the product, and its stock is at least the requested quantity; each rejection names its reason, in the order the checks are made |
| `Cart.AddMergesIntoExistingLine` | ABCRetailers/Controllers/CartController.cs:103-111 | when the user already has a row for the product, that row's quantity grows by exactly `quantity` (exactly, when no overflow occurs); no row is added and no other row changes |
| `Cart.AddInsertsNewLine` | ABCRetailers/Controllers/CartController.cs:112-123 | when the user has no row for the product, exactly one row is appended with that user, product, quantity, a fresh key and the current time as its date; all existing rows are kept unchanged |
| `Cart.AddPreservesUniqueLines` | ABCRetailers/Controllers/CartController.cs:103-123 | at most one row per (user, product) before AddToCart implies the same afterwards |
| `Cart.AddKeepsWellKeyed` | ABCRetailers/Controllers/CartController.cs:112-123 | after AddToCart the row keys are still distinct and below the next key, and no stored row has view data |
| `Cart.TwoAddsGiveOneLine` | ABCRetailers/Controllers/CartController.cs:103-123 | two accepted adds of d1 and d2 for a product not yet in the cart give a single row with quantity d1+d2 |
| `Cart.TwoAddsToExistingLine` | ABCRetailers/Controllers/CartController.cs:103-111 | two accepted adds to an existing row add d1+d2 to it and change nothing else |
| `Cart.MergedQuantityCanExceedStock` | ABCRetailers/Controllers/CartController.cs:95-111 | two adds, each within the stock, are both accepted, and the merged row holds their sum even when that sum exceeds the stock |
| `Cart.RemoveDeletesOnlyOwnedRow` | ABCRetailers/Controllers/CartController.cs:187-199 | RemoveFromCart deletes only the row with that key belonging to the user; a row of another user is never deleted; if no such row exists, the table is unchanged |
| `Cart.RemoveAtKeepsOthers` | ABCRetailers/Controllers/CartController.cs:192 | deleting one row keeps exactly the rows with other keys |
| `Cart.SetQuantityChangesOnlyOwnedRow` | ABCRetailers/Controllers/CartController.cs:152-164 | UpdateQuantity sets the quantity of the user's row with that key and leaves every other row, including other users' rows, unchanged |
| `Cart.RemovePreservesInvariants` | ABCRetailers/Controllers/CartController.cs:187-193 | deleting a row keeps keys distinct and (user, product) rows unique |
| `Cart.SetQuantityPreservesInvariants` | ABCRetailers/Controllers/CartController.cs:152-158 | setting a quantity keeps keys distinct and (user, product) rows unique |
| `Cart.ClearPartitions` | ABCRetailers/Controllers/CartController.cs:222-226 | the rows ClearCart keeps plus the user's rows account for every row of the table exactly once |
| `Cart.ClearKeepsDistinctIds` | ABCRetailers/Controllers/CartController.cs:222-227 | clearing a cart keeps row keys distinct |
| `Cart.ClearKeepsUniqueLines` | ABCRetailers/Controllers/CartController.cs:222-227 | clearing a cart keeps (user, product) rows unique |
| `Cart.CheckedSum` | ABCRetailers/Controllers/CartController.cs:250-260 | the checked `Sum` of the quantities: when it succeeds, it is the exact total |
| `Cart.CheckedSumSucceedsIffRunningTotalsFit` | ABCRetailers/Controllers/CartController.cs:254 | the checked sum succeeds exactly when every running total (each prefix sum) stays within the 32-bit range |
| `Cart.CheckedSumOfNonNegative` | ABCRetailers/Controllers/CartController.cs:254 | with no negative quantities, the checked sum succeeds exactly when the total fits in 32 bits |
| `Cart.EnrichOnlySetsViewFields` | ABCRetailers/Controllers/CartController.cs:44-51 | enrichment never changes a stored column; a failed or empty lookup leaves the view fields unset; a found product sets name, price, image and a non-null description; the line total is price × quantity after a found lookup and 0 otherwise |
| `Cart.CartTable.AddToCart` | ABCRetailers/Controllers/CartController.cs:69-135 | reports `AddDecision`; when accepted, the table becomes `AddLine` of the old table; the next key is unchanged on a merge and advances by one on an insert; when rejected, the table and next key are unchanged; keeps `Valid()` and keeps (user, product) rows unique |
| `Cart.CartTable.RemoveFromCart` | ABCRetailers/Controllers/CartController.cs:175-208 | without a user nothing changes; otherwise the table becomes `RemoveLine`, and the result is `Removed` or `NotInCart` depending on whether the user owned that row |
| `Cart.CartTable.UpdateQuantity` | ABCRetailers/Controllers/CartController.cs:137-173 | a quantity ≤ 0 has exactly RemoveFromCart's effect and result; otherwise the table becomes `SetLineQuantity`, with result `Updated` or `NotInCart` |
| `Cart.CartTable.ClearCart` | ABCRetailers/Controllers/CartController.cs:210-237 | without a user nothing changes; otherwise exactly the user's rows are deleted |
| `Cart.CartTable.GetCartCount` | ABCRetailers/Controllers/CartController.cs:239-261 | always a 32-bit value; 0 without a user; for a user, the exact sum of that user's quantities when every running total fits in 32 bits and 0 otherwise (the overflow is caught); when the user's own quantities are non-negative, the sum if it fits and 0 if it does not |
| `Cart.CartTable.Index` | ABCRetailers/Controllers/CartController.cs:24-67 | nothing without a user; otherwise exactly the user's rows, in table order, each enriched from its own lookup independently of the others; the table is not changed (no `modifies`) |
| `Auth.Login` | ABCRetailers/Controllers/AuthController.cs:35-55 | rejects a blank user name or password; a sign-in issues the identity (key, name, role) of a user whose name and stored password equal the supplied ones; an unknown user name never signs in |
| `Auth.WhiteSpaceIsTheListedCharacters` | ABCRetailers/Models/ViewModels/LoginVM.cs:7-12 | the white-space test used by `[Required]` accepts exactly the 25 code points of .NET's `char.IsWhiteSpace` (U+0009–U+000D, U+0020, U+0085, U+00A0, U+1680, U+2000–U+200A, U+2028, U+2029, U+202F, U+205F, U+3000) |
| `Auth.RequiredIffNotAllWhiteSpace` | ABCRetailers/Models/ViewModels/LoginVM.cs:7-12 | a `[Required]` field (checked through `ModelState.IsValid`) is valid exactly when `string.IsNullOrWhiteSpace`'s character-by-character scan finds a character that is not white space |
| `Auth.LoginSucceedsIffCredentialsMatch` | ABCRetailers/Controllers/AuthController.cs:40-55 | with unique user names, a valid form signs in exactly when some user has that name and that password, and then receives that user's identity |
| `Auth.RegisterDecision` | ABCRetailers/Controllers/AuthController.cs:93-105 | rejected as `UsernameTaken` exactly when the name is in use; as `EmailTaken` exactly when the name is free and the e-mail address is in use; otherwise registered with a Customer identity under the new key |
| `Auth.RegisterKeepsUserNamesUnique` | ABCRetailers/Controllers/AuthController.cs:93-118 | after an accepted registration, no two users share a user name |
| `Auth.RegisterThenLogin` | ABCRetailers/Controllers/AuthController.cs:107-126 | a newly registered user signing in with the same name and password receives the identity that Register issued |
| `Auth.UserTable.Register` | ABCRetailers/Controllers/AuthController.cs:89-135 | reports `RegisterDecision`; when accepted, appends exactly one user (given name and e-mail, stored password equal to the supplied one, role "Customer") and advances the key; when rejected, the table is unchanged; keeps `Valid()` |

## Left out

- Sessions, cookies and claims plumbing: `SignInAsync`, `GetCurrentUserId`'s parsing of the
  claim, the return-URL check and the redirects. The user id is passed in as an optional
  integer, and the identity that would be signed in is returned as a value.
- TempData messages, views, logging and JSON wrapping. Each action's result is reduced to an
  `Outcome` value.
- async/await, Entity Framework change tracking, `SaveChangesAsync` failures, transactions and
  concurrent requests. Each action is one atomic step. A database failure inside an action is
  not modelled: in `CartController` it is caught by the action's outer `catch`; in
  `AuthController` it propagates out of `Register` and `Login` as an unhandled exception. The
  exception from the product lookup is modelled.
- Database collation. SQL Server's default comparison of user names, e-mail addresses and
  product ids ignores case and trailing spaces; the model compares strings exactly.
- Null strings. The product id, user name, password, registration e-mail and the product
  name returned by the product service are never `null` in the model (a null e-mail would
  match the users whose e-mail is null under the database's null semantics);
  `string.IsNullOrEmpty(productId)` becomes "is empty".
- The order in which the database returns rows is taken to be the table's sequence order.
  The queries have no `ORDER BY`, so the database may choose another order. That order fixes
  the order of the items `Index` returns, which row `AddToCart` merges into should a user hold
  two rows for one product (`FindLine` takes the first), and which running total
  `GetCartCount` meets first (and so whether the checked sum overflows when negative
  quantities are present).
- The default argument `quantity = 1` of `AddToCart`. The caller always supplies the quantity.
- The product service is a function of the product id, so two lookups of the
  same id within one `Index` call give the same answer. The source makes one HTTP call per row,
  and each can fail or answer differently on its own.
- The validation attributes of the registration form. `RegisterVM` is not part of this model.
  Register is modelled from the point after its `ModelState` check.
- Decimal arithmetic overflow and decimal scale. Prices are unbounded integers.
- Identity-column overflow. Keys for rows and users are unbounded integers.
- The other endpoints of the product service, `OrderController`, and every order operation.
  There is no checkout, stock decrement or status transition rule in this part of the source,
  so none is modelled.
- `Program.cs` (dependency injection, HTTP client and middleware configuration) and
  `AppDbContext` beyond the unique index on `UserName`, which appears as `UniqueUserNames` in
  `UserTable.Valid()`.
