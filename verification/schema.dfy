/** The storefront's persisted entities, one datatype per table, with money
    in integer cents (the database holds decimal strings such as "19.99"). */
module Schema {
  import opened Wrappers

  type Id = string

  /** An amount of money in cents. */
  type Cents = nat

  datatype Category = Category(id: Id, name: string, description: Option<string>, icon: Option<string>)

  /** What a product without a matching category is shown with. */
  const PlaceholderCategory: Category := Category("", "", None, None)

  datatype Product = Product(
    id: Id,
    name: string,
    price: Cents,
    salePrice: Option<Cents>,
    categoryId: Option<Id>,
    stock: int,
    featured: bool)

  /** The price a shopper pays: the sale price when there is one, else the
      list price (`salePrice || price`). */
  function EffectivePrice(p: Product): Cents {
    p.salePrice.GetOr(p.price)
  }

  datatype Order = Order(id: Id, userId: Id, total: int, status: string, shippingAddress: string)

  /** A line of a placed order; `price` is the snapshot taken at checkout. */
  datatype OrderItem = OrderItem(orderId: Id, productId: Id, quantity: int, price: Cents)

  /** A row of the server-side cart table. */
  datatype CartRow = CartRow(id: Id, userId: Id, productId: Id, quantity: int)

  /** JavaScript truthiness of an optional string: present and non-empty. */
  predicate Truthy(s: Option<string>) {
    s.Some? && s.value != ""
  }
}
