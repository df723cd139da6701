/** The browser-side cart store (use-cart.tsx): an ordered list of cart
    lines plus an open/closed flag. Every action that talks to the server
    takes the outcome of that request as `apiOk`; the local state changes
    only when the request succeeded. */
module CartStore {
  import opened Wrappers
  import opened Schema
  import opened Seqs
  import Storage

  datatype CartLine = CartLine(id: Id, product: Storage.ProductWithCategory, quantity: int)

  datatype CartState = CartState(items: seq<CartLine>, isOpen: bool, userId: Id)

  /** The user every cart request is made for. */
  const DemoUser: Id := "demo-user"

  const Initial: CartState := CartState([], false, DemoUser)

  /** The quantity `addItem` uses when the caller gives none. */
  const DefaultQuantity: int := 1

  function ProductIdOf(l: CartLine): Id {
    l.product.product.id
  }

  /** The store's invariant: no two lines are for the same product. */
  ghost predicate UniqueProducts(items: seq<CartLine>) {
    DistinctBy(items, ProductIdOf)
  }

  predicate InCart(items: seq<CartLine>, productId: Id) {
    exists l | l in items :: ProductIdOf(l) == productId
  }

  // ---------------------------------------------------------------------
  // Actions
  // ---------------------------------------------------------------------

  function AddQuantity(productId: Id, quantity: int): CartLine -> CartLine {
    (l: CartLine) => if ProductIdOf(l) == productId then l.(quantity := l.quantity + quantity) else l
  }

  /** `addItem`: on success, the quantity is added to the product's line
      when there is one; otherwise a line with a fresh id is appended. */
  function AddItem(s: CartState, product: Storage.ProductWithCategory, quantity: Option<int>, apiOk: bool, freshId: Id): (t: CartState)
    ensures t.isOpen == s.isOpen && t.userId == s.userId
    ensures !apiOk ==> t == s
    ensures apiOk ==> InCart(t.items, product.product.id)
    ensures apiOk && InCart(s.items, product.product.id) ==> |t.items| == |s.items|
    ensures apiOk && !InCart(s.items, product.product.id) ==> |t.items| == |s.items| + 1
  {
    var q := quantity.GetOr(DefaultQuantity);
    var pid := product.product.id;
    if !apiOk then s
    else if InCart(s.items, pid) then
      var l :| l in s.items && ProductIdOf(l) == pid;
      var k :| 0 <= k < |s.items| && s.items[k] == l;
      assert ProductIdOf(Map(s.items, AddQuantity(pid, q))[k]) == pid;
      s.(items := Map(s.items, AddQuantity(pid, q)))
    else
      var added := CartLine(freshId, product, q);
      assert added in s.items + [added];
      s.(items := s.items + [added])
  }

  function OtherProduct(productId: Id): CartLine -> bool {
    (l: CartLine) => ProductIdOf(l) != productId
  }

  /** `removeItem`: on success, drops the product's lines. */
  function RemoveItem(s: CartState, productId: Id, apiOk: bool): (t: CartState)
    ensures t.isOpen == s.isOpen && t.userId == s.userId
    ensures !apiOk ==> t == s
    ensures apiOk ==> !InCart(t.items, productId)
    ensures apiOk ==> forall l :: l in t.items <==> l in s.items && ProductIdOf(l) != productId
  {
    if !apiOk then s else s.(items := Filter(s.items, OtherProduct(productId)))
  }

  function SetQuantity(productId: Id, quantity: int): CartLine -> CartLine {
    (l: CartLine) => if ProductIdOf(l) == productId then l.(quantity := quantity) else l
  }

  /** `updateQuantity`: zero or less removes the product (through
      `removeItem`, request included); otherwise, on success, the product's
      line takes the new quantity. */
  function UpdateQuantity(s: CartState, productId: Id, quantity: int, apiOk: bool): (t: CartState)
    ensures t.isOpen == s.isOpen && t.userId == s.userId
    ensures !apiOk ==> t == s
    ensures apiOk && quantity <= 0 ==> !InCart(t.items, productId)
    ensures apiOk && quantity > 0 ==>
              |t.items| == |s.items|
              && forall i :: 0 <= i < |s.items| ==>
                   t.items[i].id == s.items[i].id && t.items[i].product == s.items[i].product
                   && t.items[i].quantity == (if ProductIdOf(s.items[i]) == productId then quantity else s.items[i].quantity)
  {
    if quantity <= 0 then RemoveItem(s, productId, apiOk)
    else if !apiOk then s
    else s.(items := Map(s.items, SetQuantity(productId, quantity)))
  }

  /** `clearCart`: empties the list locally; no request is made. */
  function ClearCart(s: CartState): (t: CartState)
    ensures t.items == [] && t.isOpen == s.isOpen && t.userId == s.userId
  {
    s.(items := [])
  }

  /** `toggleCart`: opens a closed cart drawer and closes an open one. */
  function ToggleCart(s: CartState): (t: CartState)
    ensures t.isOpen != s.isOpen && t.items == s.items && t.userId == s.userId
  {
    s.(isOpen := !s.isOpen)
  }

  // ---------------------------------------------------------------------
  // Totals
  // ---------------------------------------------------------------------

  function LineQuantity(l: CartLine): int {
    l.quantity
  }

  /** A line's cost: its quantity at the sale price when there is one. */
  function LinePrice(l: CartLine): int {
    EffectivePrice(l.product.product) * l.quantity
  }

  /** `getTotalItems` */
  function TotalItems(s: CartState): int {
    Sum(s.items, LineQuantity)
  }

  /** `getTotalPrice`, in cents. */
  function TotalPrice(s: CartState): int {
    Sum(s.items, LinePrice)
  }

  // ---------------------------------------------------------------------
  // The shape of each action
  // ---------------------------------------------------------------------

  /** The product's first line (`Array.prototype.find`), when the cart
      holds one. */
  function FindLine(items: seq<CartLine>, productId: Id): (r: Option<nat>)
    ensures r.None? <==> !InCart(items, productId)
    ensures r.Some? ==> r.value < |items| && ProductIdOf(items[r.value]) == productId
                        && forall j :: 0 <= j < r.value ==> ProductIdOf(items[j]) != productId
    decreases |items|
  {
    if |items| == 0 then None
    else
      var init := items[..|items| - 1];
      assert items == init + [items[|items| - 1]];
      match FindLine(init, productId)
      case Some(k) => Some(k)
      case None => if ProductIdOf(items[|items| - 1]) == productId then Some(|items| - 1) else None
  }

  /** Under the invariant, a line-wise change that only touches the
      product's lines touches exactly the line at `k`. */
  lemma MapTouchesOnlyLine(items: seq<CartLine>, k: nat, f: CartLine -> CartLine, productId: Id)
    requires UniqueProducts(items) && k < |items| && ProductIdOf(items[k]) == productId
    requires forall l :: ProductIdOf(l) != productId ==> f(l) == l
    ensures Map(items, f) == items[k := f(items[k])]
  {
    forall i | 0 <= i < |items| && i != k
      ensures Map(items, f)[i] == items[i]
    {
      if i < k {
        assert ProductIdOf(items[i]) != ProductIdOf(items[k]);
      } else {
        assert ProductIdOf(items[k]) != ProductIdOf(items[i]);
      }
    }
  }

  /** Adding a product already in the cart raises that line's quantity by
      the amount (1 by default) and changes nothing else. */
  lemma AddExistingRaisesLine(s: CartState, product: Storage.ProductWithCategory, quantity: Option<int>, freshId: Id, k: nat)
    requires UniqueProducts(s.items) && k < |s.items| && ProductIdOf(s.items[k]) == product.product.id
    ensures AddItem(s, product, quantity, true, freshId).items
            == s.items[k := s.items[k].(quantity := s.items[k].quantity + quantity.GetOr(1))]
  {
    assert s.items[k] in s.items;
    MapTouchesOnlyLine(s.items, k, AddQuantity(product.product.id, quantity.GetOr(1)), product.product.id);
  }

  /** Adding a product not in the cart appends one line with the fresh id,
      the product and the amount (1 by default). */
  lemma AddNewAppendsLine(s: CartState, product: Storage.ProductWithCategory, quantity: Option<int>, freshId: Id)
    requires !InCart(s.items, product.product.id)
    ensures AddItem(s, product, quantity, true, freshId).items == s.items + [CartLine(freshId, product, quantity.GetOr(1))]
  {
  }

  /** A quantity left out is a quantity of one. */
  lemma AddDefaultsToOne(s: CartState, product: Storage.ProductWithCategory, apiOk: bool, freshId: Id)
    ensures AddItem(s, product, None, apiOk, freshId) == AddItem(s, product, Some(1), apiOk, freshId)
  {
  }

  /** Setting a positive quantity rewrites exactly the product's line. */
  lemma UpdateRewritesLine(s: CartState, productId: Id, quantity: int, k: nat)
    requires quantity > 0
    requires UniqueProducts(s.items) && k < |s.items| && ProductIdOf(s.items[k]) == productId
    ensures UpdateQuantity(s, productId, quantity, true).items == s.items[k := s.items[k].(quantity := quantity)]
  {
    MapTouchesOnlyLine(s.items, k, SetQuantity(productId, quantity), productId);
  }

  /** Zero or less is exactly `removeItem`, whatever the request's fate. */
  lemma UpdateToZeroRemoves(s: CartState, productId: Id, quantity: int, apiOk: bool)
    requires quantity <= 0
    ensures UpdateQuantity(s, productId, quantity, apiOk) == RemoveItem(s, productId, apiOk)
  {
  }

  /** Removal keeps the surviving lines in their original order. */
  lemma RemoveKeepsOrder(s: CartState, productId: Id, apiOk: bool)
    ensures IsSubsequence(RemoveItem(s, productId, apiOk).items, s.items)
  {
    if apiOk {
      FilterIsSubsequence(s.items, OtherProduct(productId));
    } else {
      FilterAll(s.items, (l: CartLine) => true);
      FilterIsSubsequence(s.items, (l: CartLine) => true);
    }
  }

  /** Removing a product just added as a new line gives back the cart. */
  lemma RemoveUndoesAddNew(s: CartState, product: Storage.ProductWithCategory, quantity: Option<int>, freshId: Id)
    requires !InCart(s.items, product.product.id)
    ensures RemoveItem(AddItem(s, product, quantity, true, freshId), product.product.id, true) == s
  {
    var pid := product.product.id;
    var added := CartLine(freshId, product, quantity.GetOr(1));
    FilterAppend(s.items, [added], OtherProduct(pid));
    FilterAll(s.items, OtherProduct(pid));
    FilterNone([added], OtherProduct(pid));
  }

  /** Setting the same quantity twice is setting it once. */
  lemma UpdateIdempotent(s: CartState, productId: Id, quantity: int)
    ensures UpdateQuantity(UpdateQuantity(s, productId, quantity, true), productId, quantity, true)
            == UpdateQuantity(s, productId, quantity, true)
  {
    var t := UpdateQuantity(s, productId, quantity, true);
    if quantity <= 0 {
      FilterAll(t.items, OtherProduct(productId));
    }
  }

  // ---------------------------------------------------------------------
  // The invariant
  // ---------------------------------------------------------------------

  lemma AddKeepsUnique(s: CartState, product: Storage.ProductWithCategory, quantity: Option<int>, apiOk: bool, freshId: Id)
    requires UniqueProducts(s.items)
    ensures UniqueProducts(AddItem(s, product, quantity, apiOk, freshId).items)
  {
    var pid := product.product.id;
    var t := AddItem(s, product, quantity, apiOk, freshId);
    if apiOk && !InCart(s.items, pid) {
      forall i, j | 0 <= i < j < |t.items|
        ensures ProductIdOf(t.items[i]) != ProductIdOf(t.items[j])
      {
        if j == |s.items| {
          assert t.items[i] == s.items[i];
          assert s.items[i] in s.items;
        } else {
          assert t.items[i] == s.items[i] && t.items[j] == s.items[j];
        }
      }
    } else if apiOk {
      forall i, j | 0 <= i < j < |t.items|
        ensures ProductIdOf(t.items[i]) != ProductIdOf(t.items[j])
      {
        assert ProductIdOf(t.items[i]) == ProductIdOf(s.items[i]);
        assert ProductIdOf(t.items[j]) == ProductIdOf(s.items[j]);
      }
    }
  }

  lemma RemoveKeepsUnique(s: CartState, productId: Id, apiOk: bool)
    requires UniqueProducts(s.items)
    ensures UniqueProducts(RemoveItem(s, productId, apiOk).items)
  {
    if apiOk {
      FilterDistinctBy(s.items, OtherProduct(productId), ProductIdOf);
    }
  }

  lemma UpdateKeepsUnique(s: CartState, productId: Id, quantity: int, apiOk: bool)
    requires UniqueProducts(s.items)
    ensures UniqueProducts(UpdateQuantity(s, productId, quantity, apiOk).items)
  {
    if quantity <= 0 {
      RemoveKeepsUnique(s, productId, apiOk);
    }
  }

  /** Every store action, with the outcome of its request and the id a new
      line would get. */
  datatype CartAction =
    | Add(product: Storage.ProductWithCategory, quantity: Option<int>, apiOk: bool, freshId: Id)
    | Remove(productId: Id, apiOk: bool)
    | Update(productId: Id, newQuantity: int, apiOk: bool)
    | Clear
    | Toggle

  function Step(s: CartState, a: CartAction): CartState {
    match a
    case Add(p, q, ok, id) => AddItem(s, p, q, ok, id)
    case Remove(pid, ok) => RemoveItem(s, pid, ok)
    case Update(pid, q, ok) => UpdateQuantity(s, pid, q, ok)
    case Clear => ClearCart(s)
    case Toggle => ToggleCart(s)
  }

  function Run(s: CartState, trace: seq<CartAction>): CartState
    decreases |trace|
  {
    if |trace| == 0 then s else Step(Run(s, trace[..|trace| - 1]), trace[|trace| - 1])
  }

  lemma StepKeepsUnique(s: CartState, a: CartAction)
    requires UniqueProducts(s.items)
    ensures UniqueProducts(Step(s, a).items)
  {
    match a
    case Add(p, q, ok, id) => AddKeepsUnique(s, p, q, ok, id);
    case Remove(pid, ok) => RemoveKeepsUnique(s, pid, ok);
    case Update(pid, q, ok) => UpdateKeepsUnique(s, pid, q, ok);
    case Clear =>
    case Toggle =>
  }

  /** Whatever the store goes through from its initial state, no product
      ever has two lines, and the user never changes. */
  lemma {:induction false} RunKeepsUnique(trace: seq<CartAction>)
    ensures UniqueProducts(Run(Initial, trace).items)
    ensures Run(Initial, trace).userId == DemoUser
    decreases |trace|
  {
    if |trace| > 0 {
      RunKeepsUnique(trace[..|trace| - 1]);
      StepKeepsUnique(Run(Initial, trace[..|trace| - 1]), trace[|trace| - 1]);
    }
  }

  // ---------------------------------------------------------------------
  // Totals after each action
  // ---------------------------------------------------------------------

  lemma SumSingle<T>(x: T, f: T -> int)
    ensures Sum([x], f) == f(x)
  {
    assert [x][..0] == [];
  }

  lemma TotalsAfterAddExisting(s: CartState, product: Storage.ProductWithCategory, quantity: Option<int>, freshId: Id, k: nat)
    requires UniqueProducts(s.items) && k < |s.items| && ProductIdOf(s.items[k]) == product.product.id
    ensures var t := AddItem(s, product, quantity, true, freshId);
            TotalItems(t) == TotalItems(s) + quantity.GetOr(1)
            && TotalPrice(t) == TotalPrice(s) + EffectivePrice(s.items[k].product.product) * quantity.GetOr(1)
  {
    var q := quantity.GetOr(1);
    var line := s.items[k];
    var bumped := line.(quantity := line.quantity + q);
    AddExistingRaisesLine(s, product, quantity, freshId, k);
    assert AddItem(s, product, quantity, true, freshId).items == s.items[k := bumped];
    SumUpdate(s.items, k, bumped, LineQuantity);
    SumUpdate(s.items, k, bumped, LinePrice);
    Distribute(EffectivePrice(line.product.product), line.quantity, q);
  }

  lemma Distribute(a: int, b: int, c: int)
    ensures a * (b + c) == a * b + a * c
  {
  }

  lemma TotalsAfterAddNew(s: CartState, product: Storage.ProductWithCategory, quantity: Option<int>, freshId: Id)
    requires !InCart(s.items, product.product.id)
    ensures var t := AddItem(s, product, quantity, true, freshId);
            TotalItems(t) == TotalItems(s) + quantity.GetOr(1)
            && TotalPrice(t) == TotalPrice(s) + EffectivePrice(product.product) * quantity.GetOr(1)
  {
    var added := CartLine(freshId, product, quantity.GetOr(1));
    AddNewAppendsLine(s, product, quantity, freshId);
    SumAppend(s.items, [added], LineQuantity);
    SumAppend(s.items, [added], LinePrice);
    SumSingle(added, LineQuantity);
    SumSingle(added, LinePrice);
  }

  /** Adding raises the item count by the amount and the total price by the
      amount at the effective price of the product's line (the stored
      product when the line already existed). */
  lemma TotalsAfterAdd(s: CartState, product: Storage.ProductWithCategory, quantity: Option<int>, freshId: Id)
    requires UniqueProducts(s.items)
    ensures var t := AddItem(s, product, quantity, true, freshId);
            var k := FindLine(s.items, product.product.id);
            var unit := if k.Some? then EffectivePrice(s.items[k.value].product.product) else EffectivePrice(product.product);
            TotalItems(t) == TotalItems(s) + quantity.GetOr(1)
            && TotalPrice(t) == TotalPrice(s) + unit * quantity.GetOr(1)
  {
    match FindLine(s.items, product.product.id)
    case Some(k) => TotalsAfterAddExisting(s, product, quantity, freshId, k);
    case None => TotalsAfterAddNew(s, product, quantity, freshId);
  }

  /** Removing a product takes its line's share out of both totals. */
  lemma TotalsAfterRemove(s: CartState, productId: Id, k: nat)
    requires UniqueProducts(s.items) && k < |s.items| && ProductIdOf(s.items[k]) == productId
    ensures var t := RemoveItem(s, productId, true);
            TotalItems(t) == TotalItems(s) - s.items[k].quantity
            && TotalPrice(t) == TotalPrice(s) - LinePrice(s.items[k])
  {
    forall i | 0 <= i < |s.items| && i != k
      ensures OtherProduct(productId)(s.items[i])
    {
      if i < k {
        assert ProductIdOf(s.items[i]) != ProductIdOf(s.items[k]);
      } else {
        assert ProductIdOf(s.items[k]) != ProductIdOf(s.items[i]);
      }
    }
    SumFilterOne(s.items, OtherProduct(productId), k, LineQuantity);
    SumFilterOne(s.items, OtherProduct(productId), k, LinePrice);
  }

  /** Setting a positive quantity replaces the line's share of both totals. */
  lemma TotalsAfterUpdate(s: CartState, productId: Id, quantity: int, k: nat)
    requires quantity > 0
    requires UniqueProducts(s.items) && k < |s.items| && ProductIdOf(s.items[k]) == productId
    ensures var t := UpdateQuantity(s, productId, quantity, true);
            TotalItems(t) == TotalItems(s) - s.items[k].quantity + quantity
            && TotalPrice(t) == TotalPrice(s) - LinePrice(s.items[k]) + EffectivePrice(s.items[k].product.product) * quantity
  {
    UpdateRewritesLine(s, productId, quantity, k);
    SumUpdate(s.items, k, s.items[k].(quantity := quantity), LineQuantity);
    SumUpdate(s.items, k, s.items[k].(quantity := quantity), LinePrice);
  }

  /** An emptied cart counts no items and costs nothing. */
  lemma TotalsAfterClear(s: CartState)
    ensures TotalItems(ClearCart(s)) == 0 && TotalPrice(ClearCart(s)) == 0
  {
  }
}
