/** The browser's cart against the server's cart table: each successful
    store action sends one request, and the request's table write keeps the
    two in step. Only `clearCart`, which sends no request, breaks them apart. */
module CartSync {
  import opened Wrappers
  import opened Schema
  import opened Seqs
  import Storage
  import CartStore

  /** What both sides agree on for one cart line. */
  datatype Entry = Entry(productId: Id, quantity: int)

  function LineEntry(l: CartStore.CartLine): Entry {
    Entry(CartStore.ProductIdOf(l), l.quantity)
  }

  function RowEntry(r: CartRow): Entry {
    Entry(r.productId, r.quantity)
  }

  function ClientView(s: CartStore.CartState): seq<Entry> {
    Map(s.items, LineEntry)
  }

  function ServerView(rows: seq<CartRow>, userId: Id): seq<Entry> {
    Map(Storage.UserCart(rows, userId), RowEntry)
  }

  /** The store's lines are the user's rows, product and quantity, in order. */
  predicate InSync(s: CartStore.CartState, rows: seq<CartRow>) {
    ClientView(s) == ServerView(rows, s.userId)
  }

  function EntryNotFor(productId: Id): Entry -> bool {
    (e: Entry) => e.productId != productId
  }

  function EntrySet(productId: Id, quantity: int): Entry -> Entry {
    (e: Entry) => if e.productId == productId then e.(quantity := quantity) else e
  }

  function EntryAdd(productId: Id, quantity: int): Entry -> Entry {
    (e: Entry) => if e.productId == productId then e.(quantity := e.quantity + quantity) else e
  }

  lemma UserCartOwned(rows: seq<CartRow>, userId: Id)
    ensures forall r :: r in Storage.UserCart(rows, userId) ==> r.userId == userId && r in rows
  {
  }

  // ---------------------------------------------------------------------
  // Each side, seen through its view
  // ---------------------------------------------------------------------

  lemma ClientRemove(s: CartStore.CartState, productId: Id)
    ensures ClientView(CartStore.RemoveItem(s, productId, true)) == Filter(ClientView(s), EntryNotFor(productId))
  {
    FilterMap(s.items, LineEntry, CartStore.OtherProduct(productId), EntryNotFor(productId));
  }

  lemma ServerRemove(rows: seq<CartRow>, userId: Id, productId: Id)
    ensures ServerView(Storage.RemoveFromCart(rows, userId, productId), userId)
         == Filter(ServerView(rows, userId), EntryNotFor(productId))
  {
    var own := Storage.OwnedBy(userId);
    var other := Storage.NotKeyed(userId, productId);
    FilterCommute(rows, other, own);
    UserCartOwned(rows, userId);
    FilterMap(Storage.UserCart(rows, userId), RowEntry, other, EntryNotFor(productId));
  }

  lemma ClientUpdate(s: CartStore.CartState, productId: Id, quantity: int)
    requires quantity > 0
    ensures ClientView(CartStore.UpdateQuantity(s, productId, quantity, true))
         == Map(ClientView(s), EntrySet(productId, quantity))
  {
    MapCompose(s.items, CartStore.SetQuantity(productId, quantity), LineEntry, LineEntry, EntrySet(productId, quantity));
  }

  lemma ServerUpdate(rows: seq<CartRow>, userId: Id, productId: Id, quantity: int)
    ensures ServerView(Storage.UpdateCartItemQuantity(rows, userId, productId, quantity).rows, userId)
         == Map(ServerView(rows, userId), EntrySet(productId, quantity))
  {
    var setQty := Storage.SetQuantityIfKeyed(userId, productId, quantity);
    var own := Storage.OwnedBy(userId);
    FilterMap(rows, setQty, own, own);
    UserCartOwned(rows, userId);
    MapCompose(Storage.UserCart(rows, userId), setQty, RowEntry, RowEntry, EntrySet(productId, quantity));
  }

  lemma ClientAddExisting(s: CartStore.CartState, product: Storage.ProductWithCategory, quantity: Option<int>, freshId: Id)
    requires CartStore.InCart(s.items, product.product.id)
    ensures ClientView(CartStore.AddItem(s, product, quantity, true, freshId))
         == Map(ClientView(s), EntryAdd(product.product.id, quantity.GetOr(CartStore.DefaultQuantity)))
  {
    var pid := product.product.id;
    var q := quantity.GetOr(CartStore.DefaultQuantity);
    MapCompose(s.items, CartStore.AddQuantity(pid, q), LineEntry, LineEntry, EntryAdd(pid, q));
  }

  lemma ClientAddNew(s: CartStore.CartState, product: Storage.ProductWithCategory, quantity: Option<int>, freshId: Id)
    requires !CartStore.InCart(s.items, product.product.id)
    ensures ClientView(CartStore.AddItem(s, product, quantity, true, freshId))
         == ClientView(s) + [Entry(product.product.id, quantity.GetOr(CartStore.DefaultQuantity))]
  {
    var added := CartStore.CartLine(freshId, product, quantity.GetOr(CartStore.DefaultQuantity));
    assert CartStore.AddItem(s, product, quantity, true, freshId).items == s.items + [added];
    MapAppend(s.items, [added], LineEntry);
    assert Map([added], LineEntry) == [LineEntry(added)];
  }

  function AddIfKeyed(userId: Id, productId: Id, quantity: int): CartRow -> CartRow {
    (r: CartRow) => if Storage.Keyed(r, userId, productId) then r.(quantity := r.quantity + quantity) else r
  }

  /** With one row per (user, product), bumping the found row by id is
      bumping every row of that user and product. */
  lemma BumpIsAddIfKeyed(rows: seq<CartRow>, userId: Id, productId: Id, quantity: int, k: nat)
    requires Storage.CartWellFormed(rows)
    requires k < |rows| && Storage.Keyed(rows[k], userId, productId)
    ensures rows[k := rows[k].(quantity := rows[k].quantity + quantity)] == Map(rows, AddIfKeyed(userId, productId, quantity))
  {
    var bumped := rows[k].(quantity := rows[k].quantity + quantity);
    forall i | 0 <= i < |rows|
      ensures rows[k := bumped][i] == Map(rows, AddIfKeyed(userId, productId, quantity))[i]
    {
      if i != k {
        assert Storage.CartKey(rows[i]) != Storage.CartKey(rows[k]);
      }
    }
  }

  lemma ServerBump(rows: seq<CartRow>, userId: Id, productId: Id, quantity: int)
    ensures ServerView(Map(rows, AddIfKeyed(userId, productId, quantity)), userId)
         == Map(ServerView(rows, userId), EntryAdd(productId, quantity))
  {
    var bump := AddIfKeyed(userId, productId, quantity);
    var own := Storage.OwnedBy(userId);
    FilterMap(rows, bump, own, own);
    UserCartOwned(rows, userId);
    MapCompose(Storage.UserCart(rows, userId), bump, RowEntry, RowEntry, EntryAdd(productId, quantity));
  }

  lemma ServerAddExisting(rows: seq<CartRow>, userId: Id, productId: Id, quantity: int, freshId: Id, k: nat)
    requires Storage.CartWellFormed(rows)
    requires k < |rows| && Storage.Keyed(rows[k], userId, productId)
    ensures ServerView(Storage.AddToCart(rows, Storage.NewCartItem(userId, productId, quantity), freshId).rows, userId)
         == Map(ServerView(rows, userId), EntryAdd(productId, quantity))
  {
    Storage.AddToCartExisting(rows, Storage.NewCartItem(userId, productId, quantity), freshId, k);
    BumpIsAddIfKeyed(rows, userId, productId, quantity, k);
    ServerBump(rows, userId, productId, quantity);
  }

  lemma ServerAddNew(rows: seq<CartRow>, userId: Id, productId: Id, quantity: int, freshId: Id)
    requires Storage.FindCartRow(rows, userId, productId).None?
    ensures ServerView(Storage.AddToCart(rows, Storage.NewCartItem(userId, productId, quantity), freshId).rows, userId)
         == ServerView(rows, userId) + [Entry(productId, quantity)]
  {
    var row := CartRow(freshId, userId, productId, quantity);
    assert Storage.AddToCart(rows, Storage.NewCartItem(userId, productId, quantity), freshId).rows == rows + [row];
    FilterAppend(rows, [row], Storage.OwnedBy(userId));
    FilterSingleton(row, Storage.OwnedBy(userId));
    MapAppend(Storage.UserCart(rows, userId), [row], RowEntry);
    assert Map([row], RowEntry) == [RowEntry(row)];
  }

  lemma LineMeansRow(s: CartStore.CartState, rows: seq<CartRow>, productId: Id)
    requires InSync(s, rows) && CartStore.InCart(s.items, productId)
    ensures Storage.FindCartRow(rows, s.userId, productId).Some?
  {
    var mine := Storage.UserCart(rows, s.userId);
    var l :| l in s.items && CartStore.ProductIdOf(l) == productId;
    var i :| 0 <= i < |s.items| && s.items[i] == l;
    assert LineEntry(l) == ClientView(s)[i] == ServerView(rows, s.userId)[i] == RowEntry(mine[i]);
    assert mine[i] in mine;
    assert mine[i] in rows && mine[i].userId == s.userId;
    var j :| 0 <= j < |rows| && rows[j] == mine[i];
    assert Storage.Keyed(rows[j], s.userId, productId);
  }

  lemma RowMeansLine(s: CartStore.CartState, rows: seq<CartRow>, productId: Id, k: nat)
    requires InSync(s, rows) && k < |rows| && Storage.Keyed(rows[k], s.userId, productId)
    ensures CartStore.InCart(s.items, productId)
  {
    var mine := Storage.UserCart(rows, s.userId);
    assert rows[k] in rows;
    assert rows[k] in mine;
    var i :| 0 <= i < |mine| && mine[i] == rows[k];
    assert RowEntry(mine[i]) == ServerView(rows, s.userId)[i] == ClientView(s)[i] == LineEntry(s.items[i]);
    assert s.items[i] in s.items;
  }

  /** In step, the store has a line for a product exactly when the table has
      the user's row for it. */
  lemma InCartIffRow(s: CartStore.CartState, rows: seq<CartRow>, productId: Id)
    requires InSync(s, rows)
    ensures CartStore.InCart(s.items, productId) <==> Storage.FindCartRow(rows, s.userId, productId).Some?
  {
    if CartStore.InCart(s.items, productId) {
      LineMeansRow(s, rows, productId);
    }
    match Storage.FindCartRow(rows, s.userId, productId)
    case Some(k) => RowMeansLine(s, rows, productId, k);
    case None =>
  }

  // ---------------------------------------------------------------------
  // The pairs of writes
  // ---------------------------------------------------------------------

  /** `removeItem` and the DELETE it sends keep the two sides in step. */
  lemma SyncAfterRemove(s: CartStore.CartState, rows: seq<CartRow>, productId: Id)
    requires InSync(s, rows)
    ensures InSync(CartStore.RemoveItem(s, productId, true), Storage.RemoveFromCart(rows, s.userId, productId))
  {
    ClientRemove(s, productId);
    ServerRemove(rows, s.userId, productId);
  }

  /** `updateQuantity` with a positive quantity and the PUT it sends keep the
      two sides in step. */
  lemma SyncAfterUpdate(s: CartStore.CartState, rows: seq<CartRow>, productId: Id, quantity: int)
    requires InSync(s, rows) && quantity > 0
    ensures InSync(CartStore.UpdateQuantity(s, productId, quantity, true),
                   Storage.UpdateCartItemQuantity(rows, s.userId, productId, quantity).rows)
  {
    ClientUpdate(s, productId, quantity);
    ServerUpdate(rows, s.userId, productId, quantity);
  }

  /** `addItem` and the POST it sends keep the two sides in step: both add to
      the existing line or both append one. */
  lemma SyncAfterAdd(s: CartStore.CartState, rows: seq<CartRow>, product: Storage.ProductWithCategory,
                     quantity: Option<int>, lineId: Id, rowId: Id)
    requires InSync(s, rows) && Storage.CartWellFormed(rows)
    ensures var q := quantity.GetOr(CartStore.DefaultQuantity);
            InSync(CartStore.AddItem(s, product, quantity, true, lineId),
                   Storage.AddToCart(rows, Storage.NewCartItem(s.userId, product.product.id, q), rowId).rows)
  {
    var pid := product.product.id;
    var q := quantity.GetOr(CartStore.DefaultQuantity);
    InCartIffRow(s, rows, pid);
    match Storage.FindCartRow(rows, s.userId, pid)
    case Some(k) =>
      ClientAddExisting(s, product, quantity, lineId);
      ServerAddExisting(rows, s.userId, pid, q, rowId, k);
    case None =>
      ClientAddNew(s, product, quantity, lineId);
      ServerAddNew(rows, s.userId, pid, q, rowId);
  }

  /** `clearCart` sends no request: a non-empty cart in step is out of step
      afterwards, the table still holding the user's rows. */
  lemma ClearLeavesServerCart(s: CartStore.CartState, rows: seq<CartRow>)
    requires InSync(s, rows) && |s.items| > 0
    ensures !InSync(CartStore.ClearCart(s), rows)
    ensures |Storage.UserCart(rows, s.userId)| == |s.items|
  {
    assert |ClientView(s)| == |s.items|;
  }
}
