/** The remote product service as the cart sees it: one lookup per product id, which
    returns a product, returns nothing, or fails (throws). */
module Catalog {
  import opened Primitives

  /** The fields of the remote product record that the cart reads.
      Prices are exact decimals, written here as integers in the smallest currency unit. */
  datatype Product = Product(
    productName: string,
    price: int,
    stockAvailable: int,
    imageUrl: Option<string>,
    description: Option<string>)

  /** One reply of `GetProductAsync(id)`: a product, `null`, or an exception. */
  datatype Lookup = Found(product: Product) | NotFound | Failed

  /** The product service: what `GetProductAsync` answers for each product id. */
  type Service = string -> Lookup
}
