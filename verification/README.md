# Storefront core, modelled in Dafny

This project models the part of a small web storefront that makes real
decisions. It has four pieces:

- **The browser-side cart store** (`CartStore`, cart_store.dfy).
  - The cart is an ordered list of lines `(id, product, quantity)` plus an open/closed flag.
  - The store's actions are `addItem`, `removeItem`, `updateQuantity`, `clearCart` and `toggleCart`.
  - It derives two totals: an item count and a price.
- **The server's data access** (`Storage`, storage.dfy, and `OrderView`, order_view.dfy).
  - Every table is a sequence of rows, in the order the database returns them.
  - Product search combines optional filters.
  - The cart table is written with upsert, set-quantity, remove and clear.
  - The left join orders → order items → products is regrouped into one order per id, each with a nested list of line items.
- **The HTTP handlers** (`Routes`, routes.dfy).
  - Each handler is a pure function from the request and the database to a response and the new database.
- **The product page's price-range filter and sort** (`CatalogView`, catalog_view.dfy).
- **The store against the cart table** (`CartSync`, cart_sync.dfy).
  - Each successful store action is paired with the storage write its request ends in.
  - Both sides are compared as the ordered list of `(productId, quantity)` of the user's lines and rows.

Shared pieces:
- `Wrappers` holds `Option`.
- `Seqs` holds the list operations: `filter`, `map`, summing `reduce` and first-index `find`, with their laws.
- `Schema` holds one datatype per table.
- `Text` holds the case-insensitive substring match.

Money is in integer cents throughout. The source keeps prices as decimal strings and parses them to floats. The model uses cents instead, so `price < 50` (dollars) becomes `price < 5000`. The two comparisons agree on every price with at most two decimals.

An absent or empty `salePrice` is `None`. A present one, even `"0.00"`, is `Some`, just as JavaScript's `salePrice || price` behaves.

Things outside the code are parameters:
- the outcome of a browser request (`apiOk`);
- the id a new cart line, cart row or order receives;
- the payment processor client;
- the string collation used by `localeCompare`.

The storage functions cannot fail. Database errors and the 500 responses they cause are not modelled.

## Model

| member | source | states |
|---|---|---|
| CartStore.AddItem | use-cart.tsx:33-75 | when the request fails nothing changes; on success the product is in the cart, the length is unchanged if it was already there and grows by one otherwise; the drawer flag and user never change |
| CartStore.AddExistingRaisesLine | use-cart.tsx:43-52 | adding a product already in the cart (one line per product) raises only that line's quantity by the given amount; all other lines and the length are unchanged |
| CartStore.AddNewAppendsLine | use-cart.tsx:53-61 | adding a product not in the cart appends exactly one line with the fresh id, the product and the amount; existing lines are unchanged |
| CartStore.AddDefaultsToOne | use-cart.tsx:33 | leaving the quantity out is the same as passing 1 |
| CartStore.RemoveItem | use-cart.tsx:77-87 | on success no line for the product remains, and exactly the other products' lines survive; on failure nothing changes |
| CartStore.RemoveKeepsOrder | use-cart.tsx:81-83 | the surviving lines keep their original relative order |
| CartStore.RemoveUndoesAddNew | use-cart.tsx:53-83 | removing a product that was just added as a new line gives back the original cart |
| CartStore.UpdateQuantity | use-cart.tsx:89-112 | on failure nothing changes; a quantity of 0 or less leaves no line for the product; a positive quantity keeps every line's id and product and sets the quantity of exactly the product's lines |
| CartStore.UpdateToZeroRemoves | use-cart.tsx:91-94 | a quantity of 0 or less behaves exactly as `removeItem`, request outcome included |
| CartStore.UpdateRewritesLine | use-cart.tsx:102-108 | a positive quantity rewrites only the product's line |
| CartStore.UpdateIdempotent | use-cart.tsx:89-112 | setting the same quantity twice is the same as setting it once |
| CartStore.ClearCart | use-cart.tsx:114-121 | the list becomes empty; the flag and user are kept |
| CartStore.ToggleCart | use-cart.tsx:123-125 | the open flag flips and nothing else changes |
| CartStore.FindLine | use-cart.tsx:43 | finds the product's first line, as `find` does, and finds none exactly when the cart holds no line for it |
| CartStore.AddKeepsUnique | use-cart.tsx:42-62 | `addItem` preserves "no two lines share a product id" |
| CartStore.RemoveKeepsUnique | use-cart.tsx:81-83 | `removeItem` preserves the invariant |
| CartStore.UpdateKeepsUnique | use-cart.tsx:89-108 | `updateQuantity` preserves the invariant |
| CartStore.RunKeepsUnique | use-cart.tsx:28-137 | from the initial state, after any sequence of actions with any request outcomes, no product has two lines and the user is still `demo-user` |
| CartStore.TotalsAfterAddExisting | use-cart.tsx:127-136 | adding to an existing line raises the item count by the amount and the price by the amount times that line's effective price |
| CartStore.TotalsAfterAddNew | use-cart.tsx:127-136 | adding a new product raises the item count by the amount and the price by the amount times its effective price |
| CartStore.TotalsAfterAdd | use-cart.tsx:127-136 | both cases together: the effective price used is that of the line's stored product |
| CartStore.TotalsAfterRemove | use-cart.tsx:127-136 | removing a product subtracts exactly its line's quantity and cost from the totals |
| CartStore.TotalsAfterUpdate | use-cart.tsx:127-136 | a positive update replaces the line's share of both totals |
| CartStore.TotalsAfterClear | use-cart.tsx:117 | after `clearCart` both totals are 0 |
| CartSync.ClientRemove | use-cart.tsx:81-83 | after `removeItem` the store's entries are its old entries without the product's, in order |
| CartSync.ServerRemove | storage.ts:286-295 | after `removeFromCart` the user's rows read as their old entries without the product's, in order |
| CartSync.ClientUpdate | use-cart.tsx:102-108 | a positive `updateQuantity` sets the quantity of exactly the product's entries |
| CartSync.ServerUpdate | storage.ts:272-284 | `updateCartItemQuantity` sets the quantity of exactly the product's entries among the user's rows; the rows keep their order |
| CartSync.ClientAddExisting | use-cart.tsx:45-52 | adding a product already in the store raises the quantity of exactly the product's entries by the amount, 1 when none is given |
| CartSync.ClientAddNew | use-cart.tsx:53-61 | adding a product not in the store appends one entry with the amount |
| CartSync.BumpIsAddIfKeyed | storage.ts:257-264 | in a well-formed table, updating the found row by its id is the same as raising every row of that user and product |
| CartSync.ServerAddExisting | storage.ts:257-264 | in a well-formed table, `addToCart` for an existing pair raises the product's entries among the user's rows by the amount |
| CartSync.ServerAddNew | storage.ts:265-268 | `addToCart` for a new pair appends one entry with the amount to the user's rows |
| CartSync.InCartIffRow | use-cart.tsx:43-45 | when the two sides are in step, the store holds a line for a product exactly when the table holds the user's row for it |
| CartSync.SyncAfterRemove | use-cart.tsx:77-87 | `removeItem` and the DELETE it sends keep the store and the user's rows in step |
| CartSync.SyncAfterUpdate | use-cart.tsx:89-112 | a positive `updateQuantity` and the PUT it sends keep the two in step |
| CartSync.SyncAfterAdd | use-cart.tsx:33-62 | in a well-formed table, `addItem` and the POST it sends keep the two in step, both merging into the existing line or both appending one |
| CartSync.ClearLeavesServerCart | use-cart.tsx:114-121 | `clearCart` sends no request, so a non-empty cart in step is out of step afterwards and the table still holds all of the user's rows |
| Storage.FindCategory | storage.ts:89 | the first category with the id, and none exactly when no category has that id |
| Storage.CategoryOf | storage.ts:109-112 | a product whose category is found gets it; otherwise it gets the placeholder with empty id and name |
| Storage.ConditionsMeanFilters | storage.ts:92-106 | the conditions built from the filters all hold exactly when the product meets every supplied filter (category equal, name contains the search ignoring case, featured when asked) |
| Storage.GetProductsExact | storage.ts:85-113 | `getProducts` returns exactly the products meeting every supplied filter, in table order, each with its joined category |
| Storage.GetProductsUnfiltered | storage.ts:103-106 | with no active filter every product is returned, in order |
| Storage.FindProduct | storage.ts:115-122 | the first product with the id in table order, and none exactly when no product has it |
| Storage.GetProduct | storage.ts:115-128 | none exactly when no product has the id; otherwise the first product with the id, with its category or the placeholder |
| Storage.FindCartRow | storage.ts:247-255 | finds the first row for the (user, product) pair, and none exactly when there is no such row |
| Storage.AddToCart | storage.ts:245-270 | the returned row is keyed by the pair and stored; an existing pair keeps the row count; otherwise exactly one row with the new id and the quantity is appended |
| Storage.AddToCartExisting | storage.ts:257-264 | in a well-formed table an existing row gets old + added quantity, and no other row changes |
| Storage.AddToCartWellFormed | storage.ts:245-270 | with a fresh row id, adding keeps row ids and (user, product) pairs unique |
| Storage.AddTwiceSumsQuantities | storage.ts:245-270 | two adds of a new pair leave one row holding the sum of both quantities |
| Storage.UpdateCartItemQuantity | storage.ts:272-284 | rows matching both user and product take the quantity; all others are unchanged; the returned row is the stored, updated first matching row, and none is returned exactly when none matched |
| Storage.RemoveFromCart | storage.ts:286-295 | no row for the pair remains, and every other row survives |
| Storage.ClearCart | storage.ts:297-299 | none of the user's rows remain, and every other user's row survives |
| Storage.OtherUsersUntouched | storage.ts:272-299 | update, remove and clear for one user leave every other user's cart identical; clear leaves the user's own cart empty |
| Storage.CartWritesWellFormed | storage.ts:272-299 | update, remove and clear keep row ids and pairs unique |
| Storage.GetCartItems | storage.ts:232-243 | entry i is the user's i-th row in table order, joined with the first product of its product id; the product is absent exactly when no product has that id |
| Storage.UpdateOrderStatus | storage.ts:217-224 | the order with the id takes the new status, from whatever status it had; others are unchanged; the returned order is a stored, updated row with that id, and none is returned exactly when no order has the id |
| OrderView.GroupRowsIds | storage.ts:164-172 | the grouped orders have distinct ids, and their ids are exactly the ids among the rows |
| OrderView.GroupRowsHeaders | storage.ts:167-171 | each entry's header is the order of the first row with its id |
| OrderView.GroupRowsOrder | storage.ts:164-182 | entries come in the order their ids first appear among the rows |
| OrderView.GroupRowsItems | storage.ts:166-180 | each entry's items are the line items of the rows for its id that have both an item and a product, in row order |
| OrderView.GroupRowsKeepsEveryItem | storage.ts:166-180 | the line items across all entries number exactly the rows with both an item and a product |
| OrderView.GetOrdersOwnedByUser | storage.ts:157-159 | with a user id, every listed order belongs to that user, and every row of that user has its order listed |
| OrderView.GroupRowsCover | storage.ts:160-182 | every entry's header is the order of some row, and every row's order id has an entry |
| OrderView.GetOrderAgreesWithGetOrders | storage.ts:185-210 | `getOrder` is none exactly when no row has the id; otherwise its header comes from the first row, and it equals the entry `getOrders` builds for that id |
| OrderView.JoinRowsFromOrders | storage.ts:150-154 | every join row carries one of the orders |
| OrderView.JoinRowIds | storage.ts:150-154 | the join's order ids are exactly the orders' ids; an order without items still yields a row |
| OrderView.JoinRowsCoverOrders | storage.ts:150-154 | every stored order has a join row carrying it, even with no items |
| OrderView.JoinSelectNewOrder | storage.ts:186-191 | selecting a newly appended order's id yields exactly that order's join rows |
| OrderView.LineItemsOfJoinedItems | storage.ts:200-207 | when every item's product exists, each item yields one line item with that item and product, in order |
| OrderView.GetNewOrder | storage.ts:185-210 | fetching a freshly created order returns its header and one line item per created item |
| Routes.GetProductsRoute | routes.ts:39-53 | answers 200 with exactly the products meeting the parsed filters, in table order, each with its category; changes nothing |
| Routes.FeaturedOnlyForLiteralTrue | routes.ts:45 | the featured filter is on exactly when the query value is the string "true"; any other value lists the same as leaving it out |
| Routes.GetProductRoute | routes.ts:55-65 | 404 "Product not found" exactly when no product has the id; otherwise 200 with the first product of that id and its category |
| Routes.GetCartRoute | routes.ts:97-104 | answers 200 listing the user's rows in table order, each with the first product of its id; changes nothing |
| Routes.PostCartRoute | routes.ts:106-114 | answers 200 with a row that is stored afterwards: the existing row with the quantities added, or a new row with the fresh id; only the cart table changes, as `addToCart` writes it |
| Routes.PutCartRoute | routes.ts:116-129 | a quantity of 0 or less removes the pair's rows and answers "Item removed from cart"; a positive one sets it and answers the updated row, or an empty body when none matched; afterwards any row for the pair holds exactly that positive quantity |
| Routes.DeleteCartRoute | routes.ts:131-138 | no row for the pair remains and every other row survives; the reply is "Item removed from cart" |
| Routes.DeleteThenGetCart | routes.ts:97-138 | after the DELETE, the GET lists the user's earlier rows in order, less the product's |
| Routes.UserCartOneRowPerProduct | storage.ts:232-237 | in a well-formed table a user's rows name each product at most once |
| Routes.PostThenGetCart | routes.ts:97-114 | in a well-formed table, after the POST the GET lists the returned row, and it is the only listed row for that product |
| Routes.GetOrdersRoute | routes.ts:141-149 | answers 200 with an order list and changes nothing |
| Routes.GetOrdersRouteLists | routes.ts:141-149 | with a non-empty user id, exactly that user's orders are listed, otherwise every order; one entry per id, each header a stored order, each entry's items those of the complete join rows for its id among the rows grouped |
| Routes.OrderListAgreesWithDetail | routes.ts:141-161 | each entry of the full list is exactly what GET /api/orders/:id answers for its id |
| Routes.GetOrderRoute | routes.ts:151-161 | answers 404 "Order not found" or 200 with a stored order of that id and the items of the complete join rows for that id; changes nothing |
| Routes.GetOrderNotFoundIffMissing | routes.ts:151-161 | 404 exactly when no order has the id, including an order with no items |
| Routes.PostOrderRoute | routes.ts:163-184 | an invalid payload gives 400 "Error creating order: …" and no change; a valid one appends the order and answers 200 with it |
| Routes.PostOrderFansOut | routes.ts:169-178 | exactly one order item per payload item is appended, with the new order's id and the item's product, quantity and price; none when `items` is absent or empty |
| Routes.FanOutItems | routes.ts:170-177 | the created items number as many as the payload items, in order, and carry the order id |
| Routes.FanOutProductsExist | routes.ts:170-177 | when every payload product exists, so does every created item's product |
| Routes.PostOrderThenGetOrder | routes.ts:151-184 | creating an order whose items' products exist and then fetching it answers 200 with that order and exactly one line item per payload item |
| Routes.PutOrderStatusRoute | routes.ts:186-194 | every order with the id takes the status and nothing else of it changes; other orders and tables are unchanged; the reply is a stored, updated order with that id, absent exactly when no order has the id |
| Routes.StatusShownAfterUpdate | routes.ts:151-194 | after the status update, GET /api/orders/:id answers 200 with a stored order of that id carrying the new status, otherwise unchanged |
| Routes.CreatePaymentIntentRoute | routes.ts:197-216 | with no processor configured: 500 "not configured"; when the processor creates the intent, 200 with its client secret and id; when it fails, 500 "Error creating payment intent: " and its message; never changes the database |
| Routes.WebhookRoute | routes.ts:219-234 | always answers `{received: true}`; the order becomes "processing" only when both ids are present, and otherwise nothing changes |
| CatalogView.ParseRange | products.tsx:38-51 | no bucket exactly when the value is none of the four range labels, the empty choice included |
| CatalogView.BucketsPartitionPrices | products.tsx:41-48 | the four half-open buckets are disjoint and cover every non-negative price |
| CatalogView.FilterByRange | products.tsx:36-54 | with a known range, exactly the products whose effective price is in that bucket are kept |
| CatalogView.NoRangeKeepsAll | products.tsx:38-53 | an empty or unrecognised range keeps every product, in order |
| CatalogView.FilterByRangeKeepsOrder | products.tsx:36-54 | the filtered list is an order-preserving subsequence of the input |
| CatalogView.Insert | products.tsx:55-69 | one insertion step adds exactly the element to the sequence |
| CatalogView.SortBy | products.tsx:55-69 | the sort returns a permutation of its input |
| CatalogView.SortBySorted | products.tsx:55-69 | under a consistent comparator the output is in order |
| CatalogView.SortByStable | products.tsx:55-69 | the sort is stable: elements that tie keep their input order |
| CatalogView.FilteredAndSorted | products.tsx:36-69 | the displayed list is a permutation of the filtered list |
| CatalogView.ResultCount | products.tsx:193 | the result count shown equals the length of the filtered list |
| CatalogView.ShownAreInRange | products.tsx:36-69 | a product is shown exactly when it was fetched and passes the range filter |
| CatalogView.PriceLowAscending | products.tsx:60-61 | `price-low` yields non-decreasing effective prices |
| CatalogView.PriceHighDescending | products.tsx:62-63 | `price-high` yields non-increasing effective prices |
| CatalogView.NameAscending | products.tsx:64-65 | `name` orders by the collation, provided the collation is consistent |
| CatalogView.PriceSortKeepsTiesInOrder | products.tsx:55-63 | under a price sort, products with the same effective price keep the order they were fetched in |
| CatalogView.FeaturedKeepsOrder | products.tsx:66-67 | any other sort value, `featured` included, leaves the filtered order unchanged |
| Text.ContainsIgnoresCase | storage.ts:97 | the name match does not depend on the case of the name or of the search |
| Text.ContainsWhenSubstring | storage.ts:97 | a name matches any search it literally contains |
| Text.EmptySearchMatchesAll | storage.ts:97 | the empty search string matches every name |

## Left out

- Floating point. These are left out:
  - `parseFloat` of prices (the model uses integer cents);
  - the `Math.round(amount * 100)` conversion when creating a payment intent (the amount is taken already in cents);
  - the checkout tax and the discount percentage shown on the detail page, which are not part of the modelled files.
- The payment processor SDK is a parameter of the handler. Its client secret, metadata and errors are opaque values.
- Browser effects are not modelled: localStorage persistence of the cart, toasts, console logging and `crypto.randomUUID` (the new line id is a parameter).
- The race between the read and the write in `addToCart` is not modelled. Operations are sequential.
- SQL `ORDER BY createdAt DESC` in `getOrders` is not modelled. Rows are taken in the order given.
- `ilike` wildcards (`%`, `_`) inside the search string are not modelled. Case folding covers ASCII letters only.
- Database exceptions, and the 400 and 500 replies that report them, are not modelled.
- Request-schema validation is reduced to a valid/invalid outcome for the order fields. Request bodies are assumed to carry their fields with the right types: a missing or non-numeric `quantity` in the cart routes is not modelled.
- GET /api/categories and the category and product create/update/delete routes are not modelled. They call storage directly and decide nothing.
- Order item row ids and timestamps are not modelled; nothing in the core reads them. Cart row ids are kept, because `addToCart` updates by row id.
- `row.products!` in `getCartItems` is a type-level assertion that is not checked at run time: a missing product is sent as null, which the model's `Option` shows.
- Product, category and order ids are taken to be unique, as primary keys. The lookups and the order join take the first row with an id; a join over duplicate ids would repeat rows instead.
- `localeCompare` is an abstract comparator on names. CatalogView.NameAscending assumes it is a total preorder.
- CatalogView.SortBy: the engine's sort algorithm is modelled as a stable insertion sort. For an inconsistent comparator, only the permutation property is promised.
- CartStore.TotalsAfterAdd: the price delta uses the effective price of the product stored in the existing line. A later price change of the product is not reflected, as in the store.
- CartSync.SyncAfterUpdate: covers positive quantities only. A quantity of 0 or less is `removeItem` (CartStore.UpdateToZeroRemoves), and CartSync.SyncAfterRemove covers that.
- The `CartSync` lemmas pair each store action directly with the storage call its route makes. The route in between passes the user, product and quantity through unchanged.
