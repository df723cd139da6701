/** The HTTP handlers of routes.ts that carry decisions of their own, each a
    pure function from the request and the database to the response and the
    new database. */
module Routes {
  import opened Wrappers
  import opened Schema
  import opened Seqs
  import Storage
  import OrderView

  datatype Body =
    | Message(text: string)
    | ProductList(products: seq<Storage.ProductWithCategory>)
    | ProductDetail(product: Storage.ProductWithCategory)
    | CartList(items: seq<Storage.CartItemWithProduct>)
      /** `res.json(row)`; no row (an update that matched nothing) sends an empty body. */
    | CartItemBody(item: Option<CartRow>)
    | OrderList(orders: seq<OrderView.OrderWithItems>)
    | OrderDetail(detail: OrderView.OrderWithItems)
    | OrderCreated(created: Order)
    | OrderStatusBody(updated: Option<Order>)
    | PaymentIntent(clientSecret: string, paymentIntentId: string)
    | Received

  datatype Response = Response(status: int, body: Body)

  /** A handler's reply together with the database it leaves behind. */
  datatype Handled = Handled(response: Response, db: Storage.Db)

  const Ok: int := 200
  const BadRequest: int := 400
  const NotFound: int := 404
  const ServerError: int := 500

  const ProductNotFound := "Product not found"
  const OrderNotFound := "Order not found"
  const ItemRemoved := "Item removed from cart"
  const NotConfigured := "Payment processing is not configured. Please add Stripe API keys."
  const ProcessingStatus := "processing"

  function Reply(status: int, body: Body, db: Storage.Db): Handled {
    Handled(Response(status, body), db)
  }

  // ---------------------------------------------------------------------
  // Products
  // ---------------------------------------------------------------------

  /** The query string of GET /api/products. */
  datatype ProductQuery = ProductQuery(categoryId: Option<string>, search: Option<string>, featured: Option<string>)

  function ParseFilters(q: ProductQuery): Storage.ProductFilters {
    Storage.ProductFilters(q.categoryId, q.search, q.featured == Some("true"))
  }

  /** GET /api/products */
  function GetProductsRoute(db: Storage.Db, q: ProductQuery): (h: Handled)
    ensures h.db == db && h.response.status == Ok
    ensures h.response.body.ProductList?
    ensures var expected := Filter(db.products, Storage.Matching(ParseFilters(q)));
            && |h.response.body.products| == |expected|
            && forall i :: 0 <= i < |expected| ==>
                 && h.response.body.products[i].product == expected[i]
                 && h.response.body.products[i].category == Storage.CategoryOf(db.categories, expected[i])
  {
    Storage.GetProductsExact(db, ParseFilters(q));
    Reply(Ok, ProductList(Storage.GetProducts(db, ParseFilters(q))), db)
  }

  /** Only the literal string "true" turns the featured filter on: any other
      value lists the same products as leaving the parameter out. */
  lemma FeaturedOnlyForLiteralTrue(db: Storage.Db, q: ProductQuery)
    ensures ParseFilters(q).featured <==> q.featured == Some("true")
    ensures q.featured != Some("true") ==> GetProductsRoute(db, q) == GetProductsRoute(db, q.(featured := None))
  {
  }

  /** GET /api/products/:id */
  function GetProductRoute(db: Storage.Db, id: Id): (h: Handled)
    ensures h.db == db
    ensures h.response.status in {Ok, NotFound}
    ensures h.response.status == NotFound <==> forall p :: p in db.products ==> p.id != id
    ensures h.response.status == NotFound ==> h.response.body == Message(ProductNotFound)
    ensures h.response.status == Ok ==>
              && h.response.body.ProductDetail? && h.response.body.product.product.id == id
              && h.response.body.product.product in db.products
              && Storage.FindProduct(db.products, id) == Some(h.response.body.product.product)
              && h.response.body.product.category == Storage.CategoryOf(db.categories, h.response.body.product.product)
  {
    match Storage.GetProduct(db, id)
    case None => Reply(NotFound, Message(ProductNotFound), db)
    case Some(p) => Reply(Ok, ProductDetail(p), db)
  }

  // ---------------------------------------------------------------------
  // Cart
  // ---------------------------------------------------------------------

  /** The JSON body of POST and PUT /api/cart. */
  datatype CartBody = CartBody(userId: Id, productId: Id, quantity: int)

  /** GET /api/cart/:userId */
  function GetCartRoute(db: Storage.Db, userId: Id): (h: Handled)
    ensures h.db == db && h.response.status == Ok
    ensures h.response.body.CartList?
    ensures var mine := Storage.UserCart(db.cart, userId);
            && |h.response.body.items| == |mine|
            && forall i :: 0 <= i < |mine| ==>
                 && h.response.body.items[i].row == mine[i]
                 && h.response.body.items[i].product == Storage.FindProduct(db.products, mine[i].productId)
  {
    Reply(Ok, CartList(Storage.GetCartItems(db, userId)), db)
  }

  /** POST /api/cart: add, or add to the quantity of the existing row. */
  function PostCartRoute(db: Storage.Db, body: CartBody, freshId: Id): (h: Handled)
    ensures h.response.status == Ok
    ensures h.db == db.(cart := h.db.cart)
    ensures h.response.body.CartItemBody? && h.response.body.item.Some?
            && Storage.Keyed(h.response.body.item.value, body.userId, body.productId)
    ensures h.response.body.item.value in h.db.cart
    ensures h.db.cart == Storage.AddToCart(db.cart, Storage.NewCartItem(body.userId, body.productId, body.quantity), freshId).rows
    ensures var k := Storage.FindCartRow(db.cart, body.userId, body.productId);
            && (k.Some? ==> h.response.body.item.value == db.cart[k.value].(quantity := db.cart[k.value].quantity + body.quantity))
            && (k.None? ==> h.response.body.item.value == CartRow(freshId, body.userId, body.productId, body.quantity))
  {
    var u := Storage.AddToCart(db.cart, Storage.NewCartItem(body.userId, body.productId, body.quantity), freshId);
    Reply(Ok, CartItemBody(Some(u.item)), db.(cart := u.rows))
  }

  /** PUT /api/cart: a quantity of zero or less removes the item instead of
      being stored. */
  function PutCartRoute(db: Storage.Db, body: CartBody): (h: Handled)
    ensures h.response.status == Ok
    ensures h.db == db.(cart := h.db.cart)
    ensures body.quantity <= 0 ==>
              && h.db.cart == Storage.RemoveFromCart(db.cart, body.userId, body.productId)
              && h.response.body == Message(ItemRemoved)
    ensures body.quantity > 0 ==>
              var u := Storage.UpdateCartItemQuantity(db.cart, body.userId, body.productId, body.quantity);
              h.db.cart == u.rows && h.response.body == CartItemBody(u.item)
    ensures forall r :: r in h.db.cart && Storage.Keyed(r, body.userId, body.productId) ==>
              r.quantity == body.quantity && r.quantity > 0
  {
    if body.quantity <= 0 then
      Reply(Ok, Message(ItemRemoved), db.(cart := Storage.RemoveFromCart(db.cart, body.userId, body.productId)))
    else
      var u := Storage.UpdateCartItemQuantity(db.cart, body.userId, body.productId, body.quantity);
      Reply(Ok, CartItemBody(u.item), db.(cart := u.rows))
  }

  /** DELETE /api/cart/:userId/:productId */
  function DeleteCartRoute(db: Storage.Db, userId: Id, productId: Id): (h: Handled)
    ensures h.response == Response(Ok, Message(ItemRemoved))
    ensures h.db == db.(cart := h.db.cart)
    ensures h.db.cart == Storage.RemoveFromCart(db.cart, userId, productId)
    ensures forall r :: r in h.db.cart ==> !Storage.Keyed(r, userId, productId)
    ensures forall r :: r in db.cart && !Storage.Keyed(r, userId, productId) ==> r in h.db.cart
  {
    Reply(Ok, Message(ItemRemoved), db.(cart := Storage.RemoveFromCart(db.cart, userId, productId)))
  }

  /** After DELETE /api/cart/:userId/:productId, GET /api/cart/:userId lists
      the user's earlier rows, in order, less the product's. */
  lemma DeleteThenGetCart(db: Storage.Db, userId: Id, productId: Id)
    ensures var after := DeleteCartRoute(db, userId, productId).db;
            var listed := GetCartRoute(after, userId).response.body.items;
            var kept := Filter(Storage.UserCart(db.cart, userId), Storage.NotKeyed(userId, productId));
            && |listed| == |kept|
            && (forall i :: 0 <= i < |kept| ==> listed[i].row == kept[i])
            && (forall i :: 0 <= i < |listed| ==> listed[i].row.productId != productId)
  {
    FilterCommute(db.cart, Storage.NotKeyed(userId, productId), Storage.OwnedBy(userId));
    var kept := Filter(Storage.UserCart(db.cart, userId), Storage.NotKeyed(userId, productId));
    assert forall i :: 0 <= i < |kept| ==> kept[i] in kept;
  }

  /** In a well-formed table, one user's rows hold each product at most once. */
  lemma UserCartOneRowPerProduct(rows: seq<CartRow>, userId: Id, productId: Id)
    requires Storage.CartWellFormed(rows)
    ensures var mine := Storage.UserCart(rows, userId);
            forall a, b :: 0 <= a < |mine| && 0 <= b < |mine| && mine[a].productId == productId && mine[b].productId == productId
                           ==> a == b
  {
    var mine := Storage.UserCart(rows, userId);
    FilterDistinctBy(rows, Storage.OwnedBy(userId), Storage.CartKey);
    forall a, b | 0 <= a < |mine| && 0 <= b < |mine| && mine[a].productId == productId && mine[b].productId == productId
      ensures a == b
    {
      assert mine[a] in mine && mine[b] in mine;
      assert Storage.CartKey(mine[a]) == Storage.CartKey(mine[b]);
    }
  }

  /** In a well-formed table, after POST /api/cart with a fresh row id,
      GET /api/cart/:userId lists the returned row, and it is the only listed
      row for that product. */
  lemma PostThenGetCart(db: Storage.Db, body: CartBody, freshId: Id)
    requires Storage.CartWellFormed(db.cart) && freshId !in Storage.CartRowIds(db.cart)
    ensures var h := PostCartRoute(db, body, freshId);
            var listed := GetCartRoute(h.db, body.userId).response.body.items;
            && (exists i :: 0 <= i < |listed| && listed[i].row == h.response.body.item.value)
            && (forall i, j ::
                  (0 <= i < |listed| && 0 <= j < |listed| && listed[i].row.productId == body.productId
                   && listed[j].row.productId == body.productId) ==> i == j)
  {
    var h := PostCartRoute(db, body, freshId);
    Storage.AddToCartWellFormed(db.cart, Storage.NewCartItem(body.userId, body.productId, body.quantity), freshId);
    UserCartOneRowPerProduct(h.db.cart, body.userId, body.productId);
    var mine := Storage.UserCart(h.db.cart, body.userId);
    var item := h.response.body.item.value;
    assert item in mine;
    var i :| 0 <= i < |mine| && mine[i] == item;
    var listed := GetCartRoute(h.db, body.userId).response.body.items;
    assert listed[i].row == item;
  }

  // ---------------------------------------------------------------------
  // Orders
  // ---------------------------------------------------------------------

  function JoinRows(db: Storage.Db): seq<OrderView.JoinRow> {
    OrderView.JoinOrders(db.orders, db.orderItems, db.products)
  }

  /** GET /api/orders */
  function GetOrdersRoute(db: Storage.Db, userId: Option<Id>): (h: Handled)
    ensures h.db == db && h.response.status == Ok
    ensures h.response.body.OrderList?
  {
    Reply(Ok, OrderList(OrderView.GetOrders(JoinRows(db), userId)), db)
  }

  /** GET /api/orders/:id */
  function GetOrderRoute(db: Storage.Db, id: Id): (h: Handled)
    ensures h.db == db
    ensures h.response.status == NotFound ==> h.response.body == Message(OrderNotFound)
    ensures h.response.status == Ok ==> h.response.body.OrderDetail? && h.response.body.detail.order.id == id
    ensures h.response.status == Ok ==>
              && h.response.body.detail.order in db.orders
              && h.response.body.detail.items == OrderView.ItemsFor(JoinRows(db), id)
    ensures h.response.status in {Ok, NotFound}
  {
    match OrderView.GetOrder(JoinRows(db), id)
    case None => Reply(NotFound, Message(OrderNotFound), db)
    case Some(o) =>
      var selected := Filter(JoinRows(db), OrderView.ForOrder(id));
      assert selected[0] in selected;
      OrderView.JoinRowsFromOrders(db.orders, db.orderItems, db.products);
      Reply(Ok, OrderDetail(o), db)
  }

  /** The join rows GET /api/orders groups: one user's, when a (truthy) user
      id is given, otherwise all. */
  function UserRows(db: Storage.Db, userId: Option<Id>): seq<OrderView.JoinRow> {
    if Truthy(userId) then Filter(JoinRows(db), OrderView.ForUser(userId.value)) else JoinRows(db)
  }

  /** GET /api/orders lists, for a (truthy) user id, exactly that user's
      orders and, without one, every order: one entry per order id, each
      header a stored order. */
  lemma GetOrdersRouteLists(db: Storage.Db, userId: Option<Id>)
    ensures var listed := GetOrdersRoute(db, userId).response.body.orders;
            && Distinct(OrderView.Ids(listed))
            && (forall g :: g in listed ==> g.order in db.orders)
            && (Truthy(userId) ==> forall g :: g in listed ==> g.order.userId == userId.value)
            && (forall o :: o in db.orders && (Truthy(userId) ==> o.userId == userId.value) ==> o.id in OrderView.Ids(listed))
            && (forall i :: 0 <= i < |listed| ==>
                  listed[i].items == OrderView.ItemsFor(UserRows(db, userId), listed[i].order.id))
  {
    var rows := JoinRows(db);
    OrderView.JoinRowsFromOrders(db.orders, db.orderItems, db.products);
    OrderView.JoinRowsCoverOrders(db.orders, db.orderItems, db.products);
    var selected := UserRows(db, userId);
    OrderView.GroupRowsCover(selected);
    OrderView.GroupRowsItems(selected);
    OrderView.GroupRowsIds(selected);
    if Truthy(userId) {
      OrderView.GetOrdersOwnedByUser(rows, userId.value);
    }
  }

  /** Each entry of the full order list is exactly what GET /api/orders/:id
      answers for its id. */
  lemma OrderListAgreesWithDetail(db: Storage.Db)
    ensures var listed := GetOrdersRoute(db, None).response.body.orders;
            forall i :: 0 <= i < |listed| ==>
              GetOrderRoute(db, listed[i].order.id).response == Response(Ok, OrderDetail(listed[i]))
  {
    var rows := JoinRows(db);
    var listed := OrderView.GroupRows(rows);
    assert GetOrdersRoute(db, None).response.body.orders == listed;
    OrderView.GroupRowsIds(rows);
    forall i | 0 <= i < |listed|
      ensures GetOrderRoute(db, listed[i].order.id).response == Response(Ok, OrderDetail(listed[i]))
    {
      var id := listed[i].order.id;
      assert OrderView.Ids(listed)[i] == id;
      OrderView.GetOrderAgreesWithGetOrders(rows, id);
      assert IndexOf(OrderView.Ids(listed), id) == i;
    }
  }

  /** GET /api/orders/:id answers 404 exactly when no order has the id. */
  lemma GetOrderNotFoundIffMissing(db: Storage.Db, id: Id)
    ensures GetOrderRoute(db, id).response.status == NotFound <==> forall o :: o in db.orders ==> o.id != id
  {
    OrderView.GetOrderAgreesWithGetOrders(JoinRows(db), id);
    OrderView.JoinRowIds(db.orders, db.orderItems, db.products);
  }

  /** The order fields of POST /api/orders once schema validation passed. */
  datatype NewOrder = NewOrder(userId: Id, total: int, status: string, shippingAddress: string)

  /** The outcome of validating the order fields against the schema. */
  datatype OrderPayload = Valid(order: NewOrder) | Invalid(reason: string)

  /** One element of the request's `items` array. */
  datatype ItemPayload = ItemPayload(productId: Id, quantity: int, price: Cents)

  function ToOrderItem(orderId: Id): ItemPayload -> OrderItem {
    (it: ItemPayload) => OrderItem(orderId, it.productId, it.quantity, it.price)
  }

  /** The order items created for a new order: one per payload item, none
      when `items` is absent or empty. */
  function FanOut(orderId: Id, items: Option<seq<ItemPayload>>): seq<OrderItem> {
    if items.Some? && |items.value| > 0 then Map(items.value, ToOrderItem(orderId)) else []
  }

  /** POST /api/orders: create the order with the id the database assigns,
      then its items. */
  function PostOrderRoute(db: Storage.Db, payload: OrderPayload, items: Option<seq<ItemPayload>>, newId: Id): (h: Handled)
    ensures payload.Invalid? ==> h == Reply(BadRequest, Message("Error creating order: " + payload.reason), db)
    ensures payload.Valid? ==>
              var n := payload.order;
              var o := Order(newId, n.userId, n.total, n.status, n.shippingAddress);
              && h.response == Response(Ok, OrderCreated(o))
              && h.db.orders == db.orders + [o]
              && h.db == db.(orders := h.db.orders, orderItems := h.db.orderItems)
  {
    match payload
    case Invalid(reason) => Reply(BadRequest, Message("Error creating order: " + reason), db)
    case Valid(n) =>
      var o := Order(newId, n.userId, n.total, n.status, n.shippingAddress);
      var db1 := db.(orders := Storage.CreateOrder(db.orders, o));
      var db2 := db1.(orderItems := Storage.CreateOrderItems(db1.orderItems, FanOut(newId, items)));
      Reply(Ok, OrderCreated(o), db2)
  }

  /** Number of items the request carries (`items?.length`, zero when absent). */
  function PayloadCount(items: Option<seq<ItemPayload>>): nat {
    if items.Some? then |items.value| else 0
  }

  /** Creating an order appends exactly one order item per payload item, each
      with the new order's id and the item's product, quantity and price. */
  lemma PostOrderFansOut(db: Storage.Db, n: NewOrder, items: Option<seq<ItemPayload>>, newId: Id)
    ensures var after := PostOrderRoute(db, Valid(n), items, newId).db.orderItems;
            && |after| == |db.orderItems| + PayloadCount(items)
            && after[..|db.orderItems|] == db.orderItems
            && (forall i :: 0 <= i < PayloadCount(items) ==>
                  after[|db.orderItems| + i] == OrderItem(newId, items.value[i].productId, items.value[i].quantity, items.value[i].price))
  {
    var after := PostOrderRoute(db, Valid(n), items, newId).db.orderItems;
    assert after == db.orderItems + FanOut(newId, items);
  }

  /** An order id no existing order or order item uses. */
  predicate FreshOrderId(db: Storage.Db, id: Id) {
    (forall o :: o in db.orders ==> o.id != id) && (forall it :: it in db.orderItems ==> it.orderId != id)
  }

  /** Creating an order with N items whose products exist and then fetching
      it returns that order with exactly N line items, each with the
      product, quantity and price recorded at creation. */
  lemma PostOrderThenGetOrder(db: Storage.Db, n: NewOrder, items: Option<seq<ItemPayload>>, newId: Id)
    returns (g: OrderView.OrderWithItems)
    requires FreshOrderId(db, newId)
    requires items.Some? ==> forall it :: it in items.value ==> exists p :: p in db.products && p.id == it.productId
    ensures GetOrderRoute(PostOrderRoute(db, Valid(n), items, newId).db, newId).response == Response(Ok, OrderDetail(g))
    ensures g.order == Order(newId, n.userId, n.total, n.status, n.shippingAddress)
    ensures |g.items| == PayloadCount(items)
    ensures forall i :: 0 <= i < PayloadCount(items) ==>
              g.items[i].item == ToOrderItem(newId)(items.value[i]) && g.items[i].product.id == items.value[i].productId
  {
    var o := Order(newId, n.userId, n.total, n.status, n.shippingAddress);
    var fan := FanOut(newId, items);
    var db' := PostOrderRoute(db, Valid(n), items, newId).db;
    assert db'.orders == db.orders + [o];
    assert db'.orderItems == db.orderItems + fan;
    FanOutItems(newId, items);
    FanOutProductsExist(newId, items, db.products);
    g := OrderView.GetNewOrder(db.orders, o, db.orderItems, fan, db.products);
  }

  /** The fanned-out items carry the order's id, one per payload item. */
  lemma FanOutItems(orderId: Id, items: Option<seq<ItemPayload>>)
    ensures |FanOut(orderId, items)| == PayloadCount(items)
    ensures forall i :: 0 <= i < PayloadCount(items) ==> FanOut(orderId, items)[i] == ToOrderItem(orderId)(items.value[i])
    ensures forall it :: it in FanOut(orderId, items) ==> it.orderId == orderId
  {
  }

  /** Each fanned-out item names a product of the payload. */
  lemma FanOutProductsExist(orderId: Id, items: Option<seq<ItemPayload>>, products: seq<Product>)
    requires items.Some? ==> forall it :: it in items.value ==> exists p :: p in products && p.id == it.productId
    ensures forall it :: it in FanOut(orderId, items) ==> exists p :: p in products && p.id == it.productId
  {
    var fan := FanOut(orderId, items);
    forall it | it in fan
      ensures exists p :: p in products && p.id == it.productId
    {
      var i :| 0 <= i < |fan| && fan[i] == it;
      assert items.value[i] in items.value;
    }
  }

  /** PUT /api/orders/:id/status: any status is written, from any status. */
  function PutOrderStatusRoute(db: Storage.Db, id: Id, status: string): (h: Handled)
    ensures h.response.status == Ok
    ensures h.db == db.(orders := h.db.orders) && |h.db.orders| == |db.orders|
    ensures forall i :: 0 <= i < |db.orders| ==>
              h.db.orders[i] == if db.orders[i].id == id then db.orders[i].(status := status) else db.orders[i]
    ensures h.response.body.OrderStatusBody?
    ensures h.response.body.updated.None? <==> forall o :: o in db.orders ==> o.id != id
    ensures h.response.body.updated.Some? ==> h.response.body.updated.value.id == id && h.response.body.updated.value.status == status
    ensures h.response.body.updated.Some? ==> h.response.body.updated.value in h.db.orders
  {
    var u := Storage.UpdateOrderStatus(db.orders, id, status);
    Reply(Ok, OrderStatusBody(u.item), db.(orders := u.rows))
  }

  /** A status written through PUT /api/orders/:id/status is what
      GET /api/orders/:id shows next: the detail is one of the stored orders
      with that id, carrying the new status and otherwise unchanged. */
  lemma StatusShownAfterUpdate(db: Storage.Db, id: Id, status: string)
    requires exists o :: o in db.orders && o.id == id
    ensures var after := PutOrderStatusRoute(db, id, status).db;
            var h := GetOrderRoute(after, id);
            && h.response.status == Ok
            && exists k :: 0 <= k < |db.orders| && db.orders[k].id == id
                           && h.response.body.detail.order == db.orders[k].(status := status)
  {
    var after := PutOrderStatusRoute(db, id, status).db;
    var o :| o in db.orders && o.id == id;
    var k0 :| 0 <= k0 < |db.orders| && db.orders[k0] == o;
    assert after.orders[k0].id == id;
    GetOrderNotFoundIffMissing(after, id);
    var h := GetOrderRoute(after, id);
    var d := h.response.body.detail.order;
    var k :| 0 <= k < |after.orders| && after.orders[k] == d;
    assert db.orders[k].id == id;
  }

  // ---------------------------------------------------------------------
  // Payments
  // ---------------------------------------------------------------------

  /** The JSON body of POST /api/create-payment-intent; the amount is in
      cents here. */
  datatype PaymentBody = PaymentBody(amount: int, currency: Option<string>, orderId: Option<Id>)

  /** What the handler asks the payment processor for. */
  datatype IntentParams = IntentParams(amount: int, currency: string, metadataOrderId: Option<Id>)

  /** What the processor answers. */
  datatype ProcessorReply = Created(clientSecret: string, intentId: string) | Failed(message: string)

  const DefaultCurrency := "usd"

  function IntentParamsOf(body: PaymentBody): IntentParams {
    IntentParams(body.amount, body.currency.GetOr(DefaultCurrency),
                 if Truthy(body.orderId) then Some(body.orderId.value) else None)
  }

  /** POST /api/create-payment-intent; `processor` is the configured client,
      absent when no secret key was set. */
  function CreatePaymentIntentRoute(db: Storage.Db, processor: Option<IntentParams -> ProcessorReply>, body: PaymentBody): (h: Handled)
    ensures h.db == db
    ensures processor.None? ==> h.response == Response(ServerError, Message(NotConfigured))
    ensures h.response.status == Ok <==> processor.Some? && processor.value(IntentParamsOf(body)).Created?
    ensures h.response.status == Ok ==>
              var reply := processor.value(IntentParamsOf(body));
              h.response.body == PaymentIntent(reply.clientSecret, reply.intentId)
    ensures processor.Some? && processor.value(IntentParamsOf(body)).Failed? ==>
              h.response == Response(ServerError, Message("Error creating payment intent: " + processor.value(IntentParamsOf(body)).message))
  {
    match processor
    case None => Reply(ServerError, Message(NotConfigured), db)
    case Some(call) =>
      match call(IntentParamsOf(body))
      case Created(secret, intentId) => Reply(Ok, PaymentIntent(secret, intentId), db)
      case Failed(message) => Reply(ServerError, Message("Error creating payment intent: " + message), db)
  }

  /** POST /api/webhook/stripe: advance the order to "processing" only when
      both ids are present; always acknowledge. */
  function WebhookRoute(db: Storage.Db, paymentIntentId: Option<string>, orderId: Option<Id>): (h: Handled)
    ensures h.response == Response(Ok, Received)
    ensures !(Truthy(orderId) && Truthy(paymentIntentId)) ==> h.db == db
    ensures Truthy(orderId) && Truthy(paymentIntentId) ==>
              && h.db == db.(orders := h.db.orders)
              && |h.db.orders| == |db.orders|
              && (forall i :: 0 <= i < |db.orders| ==>
                    h.db.orders[i] == if db.orders[i].id == orderId.value then db.orders[i].(status := ProcessingStatus) else db.orders[i])
  {
    if Truthy(orderId) && Truthy(paymentIntentId) then
      Reply(Ok, Received, db.(orders := Storage.UpdateOrderStatus(db.orders, orderId.value, ProcessingStatus).rows))
    else
      Reply(Ok, Received, db)
  }
}
