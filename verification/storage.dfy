/** The data-access layer (`DatabaseStorage` in storage.ts) over tables held
    as sequences of rows, in the order the database returns them. */
module Storage {
  import opened Wrappers
  import opened Schema
  import opened Seqs
  import Text

  /** Every table the core touches. */
  datatype Db = Db(
    categories: seq<Category>,
    products: seq<Product>,
    orders: seq<Order>,
    orderItems: seq<OrderItem>,
    cart: seq<CartRow>)

  // ---------------------------------------------------------------------
  // Products
  // ---------------------------------------------------------------------

  /** The optional filters of `getProducts`. */
  datatype ProductFilters = ProductFilters(categoryId: Option<Id>, search: Option<string>, featured: bool)

  /** One WHERE condition of the product query. */
  datatype Condition = CategoryIs(categoryId: Id) | NameLike(search: string) | IsFeatured

  /** The conditions `getProducts` collects: one per truthy filter. */
  function BuildConditions(f: ProductFilters): seq<Condition> {
    (if Truthy(f.categoryId) then [CategoryIs(f.categoryId.value)] else [])
    + (if Truthy(f.search) then [NameLike(f.search.value)] else [])
    + (if f.featured then [IsFeatured] else [])
  }

  predicate Holds(c: Condition, p: Product) {
    match c
    case CategoryIs(id) => p.categoryId == Some(id)
    case NameLike(s) => Text.ContainsIgnoringCase(p.name, s)
    case IsFeatured => p.featured
  }

  /** The conjunction of the conditions; no conditions means no WHERE. */
  predicate AllHold(cs: seq<Condition>, p: Product) {
    forall i :: 0 <= i < |cs| ==> Holds(cs[i], p)
  }

  function SatisfiesAll(cs: seq<Condition>): Product -> bool {
    (p: Product) => AllHold(cs, p)
  }

  /** The filter as the API promises it: every supplied filter is met. */
  predicate MatchesFilters(p: Product, f: ProductFilters) {
    && (Truthy(f.categoryId) ==> p.categoryId == f.categoryId)
    && (Truthy(f.search) ==> Text.ContainsIgnoringCase(p.name, f.search.value))
    && (f.featured ==> p.featured)
  }

  function Matching(f: ProductFilters): Product -> bool {
    (p: Product) => MatchesFilters(p, f)
  }

  /** No filter restricts anything. */
  predicate Inactive(f: ProductFilters) {
    !Truthy(f.categoryId) && !Truthy(f.search) && !f.featured
  }

  datatype ProductWithCategory = ProductWithCategory(product: Product, category: Category)

  /** The first category with the given id. */
  function FindCategory(categories: seq<Category>, id: Id): (r: Option<Category>)
    ensures r.Some? ==> r.value in categories && r.value.id == id
    ensures r.None? <==> forall c :: c in categories ==> c.id != id
    ensures r.Some? ==> exists k :: 0 <= k < |categories| && categories[k] == r.value
                                    && forall j :: 0 <= j < k ==> categories[j].id != id
    decreases |categories|
  {
    if |categories| == 0 then None
    else if categories[0].id == id then Some(categories[0])
    else
      var r := FindCategory(categories[1..], id);
      assert r.Some? ==> exists k :: 0 <= k < |categories[1..]| && categories[1..][k] == r.value
                                    && forall j :: 0 <= j < k ==> categories[1..][j].id != id;
      assert forall c :: c in categories[1..] ==> c in categories;
      assert forall c :: c in categories ==> c == categories[0] || c in categories[1..];
      r
  }

  /** The category joined to a product, or the placeholder when the left
      join finds none. */
  function CategoryOf(categories: seq<Category>, p: Product): (c: Category)
    ensures p.categoryId.Some? && (exists k :: k in categories && k.id == p.categoryId.value)
            ==> c in categories && c.id == p.categoryId.value
    ensures (p.categoryId.None? || forall k :: k in categories ==> k.id != p.categoryId.value)
            ==> c == PlaceholderCategory
  {
    if p.categoryId.None? then PlaceholderCategory
    else FindCategory(categories, p.categoryId.value).GetOr(PlaceholderCategory)
  }

  function WithCategory(categories: seq<Category>): Product -> ProductWithCategory {
    (p: Product) => ProductWithCategory(p, CategoryOf(categories, p))
  }

  /** `getProducts`: the products satisfying the collected conditions, each
      joined with its category. */
  function GetProducts(db: Db, f: ProductFilters): seq<ProductWithCategory> {
    Map(Filter(db.products, SatisfiesAll(BuildConditions(f))), WithCategory(db.categories))
  }

  /** The first product with the given id. */
  function FindProduct(products: seq<Product>, id: Id): (r: Option<Product>)
    ensures r.Some? ==> r.value in products && r.value.id == id
    ensures r.None? <==> forall p :: p in products ==> p.id != id
    ensures r.Some? ==> exists k :: 0 <= k < |products| && products[k] == r.value
                                    && forall j :: 0 <= j < k ==> products[j].id != id
    decreases |products|
  {
    if |products| == 0 then None
    else if products[0].id == id then Some(products[0])
    else
      var r := FindProduct(products[1..], id);
      assert r.Some? ==> exists k :: 0 <= k < |products[1..]| && products[1..][k] == r.value
                                    && forall j :: 0 <= j < k ==> products[1..][j].id != id;
      assert forall p :: p in products[1..] ==> p in products;
      assert forall p :: p in products ==> p == products[0] || p in products[1..];
      r
  }

  /** `getProduct`: the product with that id joined with its category. */
  function GetProduct(db: Db, id: Id): (r: Option<ProductWithCategory>)
    ensures r.None? <==> forall p :: p in db.products ==> p.id != id
    ensures r.Some? ==> r.value.product in db.products && r.value.product.id == id
                        && r.value.category == CategoryOf(db.categories, r.value.product)
    ensures r.Some? ==> FindProduct(db.products, id) == Some(r.value.product)
  {
    match FindProduct(db.products, id)
    case None => None
    case Some(p) => Some(WithCategory(db.categories)(p))
  }

  /** The collected conditions mean exactly "every supplied filter is met". */
  lemma ConditionsMeanFilters(f: ProductFilters, p: Product)
    ensures AllHold(BuildConditions(f), p) <==> MatchesFilters(p, f)
  {
    var cs := BuildConditions(f);
    var c1 := if Truthy(f.categoryId) then [CategoryIs(f.categoryId.value)] else [];
    var c2 := if Truthy(f.search) then [NameLike(f.search.value)] else [];
    var c3 := if f.featured then [IsFeatured] else [];
    assert cs == c1 + c2 + c3;
    if AllHold(cs, p) {
      if Truthy(f.categoryId) { assert Holds(cs[0], p); }
      if Truthy(f.search) { assert Holds(cs[|c1|], p); }
      if f.featured { assert Holds(cs[|c1| + |c2|], p); }
    }
  }

  /** `getProducts` returns exactly the products meeting every supplied
      filter, in table order, each with its joined category. */
  lemma GetProductsExact(db: Db, f: ProductFilters)
    ensures var r := GetProducts(db, f);
            var expected := Filter(db.products, Matching(f));
            && |r| == |expected|
            && (forall i :: 0 <= i < |r| ==> r[i].product == expected[i])
            && (forall i :: 0 <= i < |r| ==> r[i].category == CategoryOf(db.categories, r[i].product))
  {
    forall p | p in db.products
      ensures SatisfiesAll(BuildConditions(f))(p) == Matching(f)(p)
    {
      ConditionsMeanFilters(f, p);
    }
    FilterCongruent(db.products, SatisfiesAll(BuildConditions(f)), Matching(f));
  }

  /** With no active filter every product is returned, in table order. */
  lemma GetProductsUnfiltered(db: Db, f: ProductFilters)
    requires Inactive(f)
    ensures var r := GetProducts(db, f);
            |r| == |db.products| && forall i :: 0 <= i < |r| ==> r[i].product == db.products[i]
  {
    assert BuildConditions(f) == [];
    FilterAll(db.products, SatisfiesAll(BuildConditions(f)));
  }

  // ---------------------------------------------------------------------
  // Cart table
  // ---------------------------------------------------------------------

  predicate Keyed(r: CartRow, userId: Id, productId: Id) {
    r.userId == userId && r.productId == productId
  }

  function RowId(r: CartRow): Id { r.id }

  function CartKey(r: CartRow): (Id, Id) { (r.userId, r.productId) }

  /** Row ids are a primary key and there is one row per (user, product). */
  ghost predicate CartWellFormed(rows: seq<CartRow>) {
    DistinctBy(rows, RowId) && DistinctBy(rows, CartKey)
  }

  function OwnedBy(userId: Id): CartRow -> bool {
    (r: CartRow) => r.userId == userId
  }

  /** One user's rows, in table order. */
  function UserCart(rows: seq<CartRow>, userId: Id): seq<CartRow> {
    Filter(rows, OwnedBy(userId))
  }

  /** The position of the (first) row for this user and product. */
  function FindCartRow(rows: seq<CartRow>, userId: Id, productId: Id): (r: Option<nat>)
    ensures r.Some? ==> r.value < |rows| && Keyed(rows[r.value], userId, productId)
                        && forall k :: 0 <= k < r.value ==> !Keyed(rows[k], userId, productId)
    ensures r.None? ==> forall k :: 0 <= k < |rows| ==> !Keyed(rows[k], userId, productId)
    decreases |rows|
  {
    if |rows| == 0 then None
    else match FindCartRow(rows[..|rows| - 1], userId, productId)
      case Some(k) => Some(k)
      case None => if Keyed(rows[|rows| - 1], userId, productId) then Some(|rows| - 1) else None
  }

  datatype NewCartItem = NewCartItem(userId: Id, productId: Id, quantity: int)

  /** The table after a write, and the row the write returned. */
  datatype Upserted = Upserted(rows: seq<CartRow>, item: CartRow)

  function SetQuantityOfRow(id: Id, quantity: int): CartRow -> CartRow {
    (r: CartRow) => if r.id == id then r.(quantity := quantity) else r
  }

  /** `addToCart`: add to the existing row's quantity (updated by row id),
      or insert a new row when the user has none for that product. */
  function AddToCart(rows: seq<CartRow>, item: NewCartItem, freshId: Id): (u: Upserted)
    ensures Keyed(u.item, item.userId, item.productId)
    ensures u.item in u.rows
    ensures FindCartRow(rows, item.userId, item.productId).Some? ==> |u.rows| == |rows|
    ensures FindCartRow(rows, item.userId, item.productId).None? ==>
              u.rows == rows + [u.item] && u.item == CartRow(freshId, item.userId, item.productId, item.quantity)
  {
    match FindCartRow(rows, item.userId, item.productId)
    case Some(k) =>
      var updated := Map(rows, SetQuantityOfRow(rows[k].id, rows[k].quantity + item.quantity));
      Upserted(updated, updated[k])
    case None =>
      var row := CartRow(freshId, item.userId, item.productId, item.quantity);
      Upserted(rows + [row], row)
  }

  /** A repeat add changes only the existing row, by the added amount. */
  lemma AddToCartExisting(rows: seq<CartRow>, item: NewCartItem, freshId: Id, k: nat)
    requires CartWellFormed(rows)
    requires k < |rows| && Keyed(rows[k], item.userId, item.productId)
    ensures var bumped := rows[k].(quantity := rows[k].quantity + item.quantity);
            AddToCart(rows, item, freshId) == Upserted(rows[k := bumped], bumped)
  {
    var found := FindCartRow(rows, item.userId, item.productId);
    assert found == Some(k) by {
      assert found.value <= k;
      assert CartKey(rows[found.value]) == CartKey(rows[k]);
    }
    var bumped := rows[k].(quantity := rows[k].quantity + item.quantity);
    var updated := Map(rows, SetQuantityOfRow(rows[k].id, bumped.quantity));
    forall i | 0 <= i < |rows|
      ensures updated[i] == rows[k := bumped][i]
    {
      if i != k {
        assert RowId(rows[i]) != RowId(rows[k]);
      }
    }
  }

  function CartRowIds(rows: seq<CartRow>): seq<Id> {
    seq(|rows|, i requires 0 <= i < |rows| => rows[i].id)
  }

  /** Adding keeps one row per (user, product), given a fresh row id. */
  lemma AddToCartWellFormed(rows: seq<CartRow>, item: NewCartItem, freshId: Id)
    requires CartWellFormed(rows)
    requires freshId !in CartRowIds(rows)
    ensures CartWellFormed(AddToCart(rows, item, freshId).rows)
  {
    var u := AddToCart(rows, item, freshId);
    match FindCartRow(rows, item.userId, item.productId)
    case Some(k) =>
      AddToCartExisting(rows, item, freshId, k);
    case None =>
      forall i | 0 <= i < |rows|
        ensures RowId(rows[i]) != freshId && CartKey(rows[i]) != CartKey(u.item)
      {
        assert CartRowIds(rows)[i] == rows[i].id;
      }
  }

  /** Two adds of the same product for a user who had none leave one row
      holding the sum of both quantities. */
  lemma AddTwiceSumsQuantities(rows: seq<CartRow>, userId: Id, productId: Id, q1: int, q2: int, id1: Id, id2: Id)
    requires CartWellFormed(rows)
    requires id1 !in CartRowIds(rows)
    requires forall k :: 0 <= k < |rows| ==> !Keyed(rows[k], userId, productId)
    ensures var once := AddToCart(rows, NewCartItem(userId, productId, q1), id1).rows;
            var twice := AddToCart(once, NewCartItem(userId, productId, q2), id2).rows;
            twice == rows + [CartRow(id1, userId, productId, q1 + q2)]
  {
    var once := AddToCart(rows, NewCartItem(userId, productId, q1), id1).rows;
    AddToCartWellFormed(rows, NewCartItem(userId, productId, q1), id1);
    AddToCartExisting(once, NewCartItem(userId, productId, q2), id2, |rows|);
  }

  function SetQuantityIfKeyed(userId: Id, productId: Id, quantity: int): CartRow -> CartRow {
    (r: CartRow) => if Keyed(r, userId, productId) then r.(quantity := quantity) else r
  }

  /** The table after an update, and the first row it returned, if any. */
  datatype Updated<T> = Updated(rows: seq<T>, item: Option<T>)

  /** `updateCartItemQuantity`: set the quantity of the rows matching both
      user and product; nothing else changes. */
  function UpdateCartItemQuantity(rows: seq<CartRow>, userId: Id, productId: Id, quantity: int): (u: Updated<CartRow>)
    ensures |u.rows| == |rows|
    ensures forall i :: 0 <= i < |rows| && Keyed(rows[i], userId, productId) ==> u.rows[i] == rows[i].(quantity := quantity)
    ensures forall i :: 0 <= i < |rows| && !Keyed(rows[i], userId, productId) ==> u.rows[i] == rows[i]
    ensures u.item.None? <==> forall r :: r in rows ==> !Keyed(r, userId, productId)
    ensures u.item.Some? ==> Keyed(u.item.value, userId, productId) && u.item.value.quantity == quantity
    ensures u.item.Some? ==> FindCartRow(rows, userId, productId).Some?
                             && u.item.value == u.rows[FindCartRow(rows, userId, productId).value]
  {
    var updated := Map(rows, SetQuantityIfKeyed(userId, productId, quantity));
    match FindCartRow(rows, userId, productId)
    case Some(k) => Updated(updated, Some(updated[k]))
    case None => Updated(updated, None)
  }

  function NotKeyed(userId: Id, productId: Id): CartRow -> bool {
    (r: CartRow) => !Keyed(r, userId, productId)
  }

  /** `removeFromCart`: delete the rows matching both user and product. */
  function RemoveFromCart(rows: seq<CartRow>, userId: Id, productId: Id): (r: seq<CartRow>)
    ensures forall x :: x in r ==> !Keyed(x, userId, productId)
    ensures forall x :: x in rows && !Keyed(x, userId, productId) ==> x in r
  {
    Filter(rows, NotKeyed(userId, productId))
  }

  function NotOwnedBy(userId: Id): CartRow -> bool {
    (r: CartRow) => r.userId != userId
  }

  /** `clearCart`: delete every row of one user. */
  function ClearCart(rows: seq<CartRow>, userId: Id): (r: seq<CartRow>)
    ensures forall x :: x in r ==> x.userId != userId
    ensures forall x :: x in rows && x.userId != userId ==> x in r
  {
    Filter(rows, NotOwnedBy(userId))
  }

  /** Row-scoped writes never change another user's cart, and `clearCart`
      empties the user's own. */
  lemma OtherUsersUntouched(rows: seq<CartRow>, userId: Id, productId: Id, quantity: int, other: Id)
    requires other != userId
    ensures UserCart(ClearCart(rows, userId), userId) == []
    ensures UserCart(UpdateCartItemQuantity(rows, userId, productId, quantity).rows, other) == UserCart(rows, other)
    ensures UserCart(RemoveFromCart(rows, userId, productId), other) == UserCart(rows, other)
    ensures UserCart(ClearCart(rows, userId), other) == UserCart(rows, other)
  {
    FilterMapInvisible(rows, SetQuantityIfKeyed(userId, productId, quantity), OwnedBy(other));
    FilterSubsumed(rows, NotKeyed(userId, productId), OwnedBy(other));
    FilterSubsumed(rows, NotOwnedBy(userId), OwnedBy(other));
    FilterNone(ClearCart(rows, userId), OwnedBy(userId));
  }

  /** Updates and removals keep the table well formed. */
  lemma CartWritesWellFormed(rows: seq<CartRow>, userId: Id, productId: Id, quantity: int)
    requires CartWellFormed(rows)
    ensures CartWellFormed(UpdateCartItemQuantity(rows, userId, productId, quantity).rows)
    ensures CartWellFormed(RemoveFromCart(rows, userId, productId))
    ensures CartWellFormed(ClearCart(rows, userId))
  {
    var u := UpdateCartItemQuantity(rows, userId, productId, quantity).rows;
    assert forall i :: 0 <= i < |rows| ==> RowId(u[i]) == RowId(rows[i]) && CartKey(u[i]) == CartKey(rows[i]);
    FilterDistinctBy(rows, NotKeyed(userId, productId), RowId);
    FilterDistinctBy(rows, NotKeyed(userId, productId), CartKey);
    FilterDistinctBy(rows, NotOwnedBy(userId), RowId);
    FilterDistinctBy(rows, NotOwnedBy(userId), CartKey);
  }

  datatype CartItemWithProduct = CartItemWithProduct(row: CartRow, product: Option<Product>)

  function JoinProduct(products: seq<Product>): CartRow -> CartItemWithProduct {
    (r: CartRow) => CartItemWithProduct(r, FindProduct(products, r.productId))
  }

  /** `getCartItems`: one user's rows in table order, each joined with the
      first product of its product id, if any. */
  function GetCartItems(db: Db, userId: Id): (r: seq<CartItemWithProduct>)
    ensures |r| == |UserCart(db.cart, userId)|
    ensures forall i :: 0 <= i < |r| ==> r[i].row == UserCart(db.cart, userId)[i]
    ensures forall i :: 0 <= i < |r| ==> r[i].row.userId == userId && r[i].row in db.cart
    ensures forall i :: 0 <= i < |r| ==> r[i].product == FindProduct(db.products, r[i].row.productId)
    ensures forall i :: 0 <= i < |r| ==>
              (r[i].product.None? <==> forall p :: p in db.products ==> p.id != r[i].row.productId)
    ensures forall i :: 0 <= i < |r| && r[i].product.Some? ==> r[i].product.value.id == r[i].row.productId
  {
    var mine := UserCart(db.cart, userId);
    assert forall i :: 0 <= i < |mine| ==> mine[i] in mine;
    Map(mine, JoinProduct(db.products))
  }

  // ---------------------------------------------------------------------
  // Orders
  // ---------------------------------------------------------------------

  function SetStatusIf(id: Id, status: string): Order -> Order {
    (o: Order) => if o.id == id then o.(status := status) else o
  }

  function HasOrderId(id: Id): Order -> bool {
    (o: Order) => o.id == id
  }

  /** `updateOrderStatus`: write any status onto the order with that id,
      whatever its current status; the first updated row is returned. */
  function UpdateOrderStatus(orders: seq<Order>, id: Id, status: string): (u: Updated<Order>)
    ensures |u.rows| == |orders|
    ensures forall i :: 0 <= i < |orders| && orders[i].id == id ==> u.rows[i] == orders[i].(status := status)
    ensures forall i :: 0 <= i < |orders| && orders[i].id != id ==> u.rows[i] == orders[i]
    ensures u.item.None? <==> forall o :: o in orders ==> o.id != id
    ensures u.item.Some? ==> u.item.value.id == id && u.item.value.status == status
    ensures u.item.Some? ==> u.item.value in u.rows
  {
    var matches := Filter(orders, HasOrderId(id));
    var updated := Map(orders, SetStatusIf(id, status));
    if |matches| == 0 then Updated(updated, None)
    else
      assert matches[0] in matches;
      var k :| 0 <= k < |orders| && orders[k] == matches[0];
      assert updated[k] == matches[0].(status := status);
      Updated(updated, Some(matches[0].(status := status)))
  }

  /** `createOrder` with the id the database generated. */
  function CreateOrder(orders: seq<Order>, order: Order): seq<Order> {
    orders + [order]
  }

  /** `createOrderItems`: insert the items in the given order. */
  function CreateOrderItems(items: seq<OrderItem>, newItems: seq<OrderItem>): seq<OrderItem> {
    items + newItems
  }
}
