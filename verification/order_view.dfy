/** Orders as the storefront reads them: the left join
    orders -> order items -> products, and the regrouping of the flat join
    rows into one order per id with a nested list of line items
    (`getOrders` and `getOrder` in storage.ts). */
module OrderView {
  import opened Wrappers
  import opened Schema
  import opened Seqs
  import Storage

  /** One row of the left join; the item and product columns are null when
      the join found nothing. */
  datatype JoinRow = JoinRow(order: Order, item: Option<OrderItem>, product: Option<Product>)

  datatype LineItem = LineItem(item: OrderItem, product: Product)

  datatype OrderWithItems = OrderWithItems(order: Order, items: seq<LineItem>)

  /** A row that carries both an order item and its product. */
  predicate Complete(r: JoinRow) {
    r.item.Some? && r.product.Some?
  }

  function IsComplete(): JoinRow -> bool {
    (r: JoinRow) => Complete(r)
  }

  /** The line item a row contributes: one if it is complete, none otherwise. */
  function RowItems(r: JoinRow): seq<LineItem> {
    if Complete(r) then [LineItem(r.item.value, r.product.value)] else []
  }

  /** The line items of the complete rows, in row order. */
  function LineItems(rows: seq<JoinRow>): seq<LineItem>
    decreases |rows|
  {
    if |rows| == 0 then [] else LineItems(rows[..|rows| - 1]) + RowItems(rows[|rows| - 1])
  }

  function RowIds(rows: seq<JoinRow>): seq<Id> {
    seq(|rows|, i requires 0 <= i < |rows| => rows[i].order.id)
  }

  function Ids(groups: seq<OrderWithItems>): seq<Id> {
    seq(|groups|, i requires 0 <= i < |groups| => groups[i].order.id)
  }

  function ForOrder(id: Id): JoinRow -> bool {
    (r: JoinRow) => r.order.id == id
  }

  /** Reference definition: the line items of one order are those of the
      complete rows carrying its id, in row order. */
  function ItemsFor(rows: seq<JoinRow>, id: Id): seq<LineItem> {
    LineItems(Filter(rows, ForOrder(id)))
  }

  /** The row at which an order id first appears (past the end when it
      does not appear). */
  function FirstIndex(rows: seq<JoinRow>, id: Id): nat {
    if id in RowIds(rows) then IndexOf(RowIds(rows), id) else |rows|
  }

  /** One iteration of the grouping loop: open an entry for a new order id
      (header taken from this row), then push the row's line item, if any,
      onto that order's entry. */
  function Absorb(groups: seq<OrderWithItems>, row: JoinRow): seq<OrderWithItems> {
    var ids := Ids(groups);
    if row.order.id in ids then
      var k := IndexOf(ids, row.order.id);
      groups[k := groups[k].(items := groups[k].items + RowItems(row))]
    else
      groups + [OrderWithItems(row.order, RowItems(row))]
  }

  /** The grouping loop of `getOrders` over the join rows. */
  function GroupRows(rows: seq<JoinRow>): seq<OrderWithItems>
    decreases |rows|
  {
    if |rows| == 0 then [] else Absorb(GroupRows(rows[..|rows| - 1]), rows[|rows| - 1])
  }

  // ---------------------------------------------------------------------
  // Facts about one step
  // ---------------------------------------------------------------------

  lemma RowIdsSnoc(rows: seq<JoinRow>)
    requires |rows| > 0
    ensures RowIds(rows) == RowIds(rows[..|rows| - 1]) + [rows[|rows| - 1].order.id]
  {
  }

  lemma IndexOfSnoc<T>(s: seq<T>, y: T, x: T)
    requires x in s
    ensures x in s + [y] && IndexOf(s + [y], x) == IndexOf(s, x)
  {
    assert (s + [y])[IndexOf(s, x)] == x;
  }

  lemma IndexOfNew<T>(s: seq<T>, x: T)
    requires x !in s
    ensures IndexOf(s + [x], x) == |s|
  {
  }

  /** What one step does to the entries. */
  lemma AbsorbShape(groups: seq<OrderWithItems>, row: JoinRow)
    requires Distinct(Ids(groups))
    ensures var g := Absorb(groups, row);
            && (row.order.id in Ids(groups) ==>
                  && Ids(g) == Ids(groups)
                  && (forall i :: 0 <= i < |g| ==> g[i].order == groups[i].order)
                  && (forall i :: 0 <= i < |g| ==>
                        g[i].items == groups[i].items + (if groups[i].order.id == row.order.id then RowItems(row) else [])))
            && (row.order.id !in Ids(groups) ==>
                  && g == groups + [OrderWithItems(row.order, RowItems(row))]
                  && Ids(g) == Ids(groups) + [row.order.id])
  {
    var ids := Ids(groups);
    if row.order.id in ids {
      var k := IndexOf(ids, row.order.id);
      forall i | 0 <= i < |groups| && i != k
        ensures groups[i].order.id != row.order.id
      {
        assert ids[i] != ids[k];
      }
    }
  }

  /** Filtering by id and collecting line items absorbs one more row. */
  lemma ItemsForSnoc(rows: seq<JoinRow>, id: Id)
    requires |rows| > 0
    ensures ItemsFor(rows, id)
            == ItemsFor(rows[..|rows| - 1], id) + (if rows[|rows| - 1].order.id == id then RowItems(rows[|rows| - 1]) else [])
  {
    var init := rows[..|rows| - 1];
    var last := rows[|rows| - 1];
    var fi := Filter(init, ForOrder(id));
    if last.order.id == id {
      assert Filter(rows, ForOrder(id)) == fi + [last];
      assert (fi + [last])[..|fi|] == fi;
    } else {
      assert Filter(rows, ForOrder(id)) == fi;
    }
  }

  /** An id with no rows has no line items. */
  lemma ItemsForAbsent(rows: seq<JoinRow>, id: Id)
    requires id !in RowIds(rows)
    ensures Filter(rows, ForOrder(id)) == []
    ensures ItemsFor(rows, id) == []
  {
    forall r | r in rows
      ensures !ForOrder(id)(r)
    {
      var i :| 0 <= i < |rows| && rows[i] == r;
      assert RowIds(rows)[i] == r.order.id;
    }
    FilterNone(rows, ForOrder(id));
  }

  // ---------------------------------------------------------------------
  // The grouping, against its reference definitions
  // ---------------------------------------------------------------------

  /** One entry per distinct order id, and exactly the ids of the rows. */
  lemma {:induction false} GroupRowsIds(rows: seq<JoinRow>)
    ensures Distinct(Ids(GroupRows(rows)))
    ensures forall id :: id in Ids(GroupRows(rows)) <==> id in RowIds(rows)
    decreases |rows|
  {
    if |rows| > 0 {
      var init := rows[..|rows| - 1];
      var last := rows[|rows| - 1];
      GroupRowsIds(init);
      AbsorbShape(GroupRows(init), last);
      RowIdsSnoc(rows);
    }
  }

  /** An id already among the first rows keeps its first row. */
  lemma FirstIndexSnoc(rows: seq<JoinRow>, id: Id)
    requires |rows| > 0 && id in RowIds(rows[..|rows| - 1])
    ensures FirstIndex(rows, id) == FirstIndex(rows[..|rows| - 1], id) < |rows| - 1
  {
    RowIdsSnoc(rows);
    IndexOfSnoc(RowIds(rows[..|rows| - 1]), rows[|rows| - 1].order.id, id);
  }

  /** An id first met in the last row has the last row as its first row. */
  lemma FirstIndexNew(rows: seq<JoinRow>)
    requires |rows| > 0 && rows[|rows| - 1].order.id !in RowIds(rows[..|rows| - 1])
    ensures FirstIndex(rows, rows[|rows| - 1].order.id) == |rows| - 1
  {
    RowIdsSnoc(rows);
    IndexOfNew(RowIds(rows[..|rows| - 1]), rows[|rows| - 1].order.id);
  }

  /** Each entry's header is the order of the first row with its id. */
  lemma {:induction false} GroupRowsHeaders(rows: seq<JoinRow>)
    ensures forall i :: 0 <= i < |GroupRows(rows)| ==> FirstIndex(rows, GroupRows(rows)[i].order.id) < |rows|
    ensures forall i :: 0 <= i < |GroupRows(rows)| ==>
              GroupRows(rows)[i].order == rows[FirstIndex(rows, GroupRows(rows)[i].order.id)].order
    decreases |rows|
  {
    var g := GroupRows(rows);
    if |rows| > 0 {
      var init := rows[..|rows| - 1];
      var last := rows[|rows| - 1];
      var g0 := GroupRows(init);
      GroupRowsHeaders(init);
      GroupRowsIds(init);
      AbsorbShape(g0, last);
      forall i | 0 <= i < |g0|
        ensures FirstIndex(rows, g[i].order.id) < |rows|
        ensures g[i].order == rows[FirstIndex(rows, g[i].order.id)].order
      {
        var id := g0[i].order.id;
        assert Ids(g0)[i] == id;
        FirstIndexSnoc(rows, id);
        assert rows[FirstIndex(init, id)] == init[FirstIndex(init, id)];
      }
      if last.order.id !in Ids(g0) {
        FirstIndexNew(rows);
      }
    }
  }

  /** Entries appear in order of first appearance of their id. */
  lemma {:induction false} GroupRowsOrder(rows: seq<JoinRow>)
    ensures forall i, j :: 0 <= i < j < |GroupRows(rows)| ==>
              FirstIndex(rows, GroupRows(rows)[i].order.id) < FirstIndex(rows, GroupRows(rows)[j].order.id)
    decreases |rows|
  {
    var g := GroupRows(rows);
    if |rows| > 0 {
      var init := rows[..|rows| - 1];
      var last := rows[|rows| - 1];
      var g0 := GroupRows(init);
      GroupRowsOrder(init);
      GroupRowsHeaders(init);
      GroupRowsIds(init);
      AbsorbShape(g0, last);
      forall i | 0 <= i < |g0|
        ensures FirstIndex(rows, g[i].order.id) == FirstIndex(init, g0[i].order.id) < |init|
      {
        assert Ids(g0)[i] == g0[i].order.id;
        FirstIndexSnoc(rows, g0[i].order.id);
      }
      if last.order.id !in Ids(g0) {
        FirstIndexNew(rows);
      }
    }
  }

  /** Each entry's items are exactly the line items of its complete rows. */
  lemma {:induction false} GroupRowsItems(rows: seq<JoinRow>)
    ensures forall i :: 0 <= i < |GroupRows(rows)| ==> GroupRows(rows)[i].items == ItemsFor(rows, GroupRows(rows)[i].order.id)
    decreases |rows|
  {
    if |rows| > 0 {
      var init := rows[..|rows| - 1];
      var last := rows[|rows| - 1];
      var g0 := GroupRows(init);
      var g := GroupRows(rows);
      GroupRowsItems(init);
      GroupRowsIds(init);
      AbsorbShape(g0, last);
      forall i | 0 <= i < |g|
        ensures g[i].items == ItemsFor(rows, g[i].order.id)
      {
        ItemsForSnoc(rows, g[i].order.id);
        if i < |g0| {
          assert Ids(g0)[i] == g0[i].order.id;
          assert g0[i].items == ItemsFor(init, g0[i].order.id);
          assert g[i].order == g0[i].order;
        } else {
          ItemsForAbsent(init, last.order.id);
        }
      }
    }
  }

  function ItemCount(g: OrderWithItems): int {
    |g.items|
  }

  /** Number of line items over all entries. */
  function TotalLineItems(groups: seq<OrderWithItems>): int {
    Sum(groups, ItemCount)
  }

  /** Grouping neither loses nor duplicates line items: their total is the
      number of complete rows. */
  lemma {:induction false} GroupRowsKeepsEveryItem(rows: seq<JoinRow>)
    ensures TotalLineItems(GroupRows(rows)) == |Filter(rows, IsComplete())|
    decreases |rows|
  {
    if |rows| > 0 {
      var init := rows[..|rows| - 1];
      var last := rows[|rows| - 1];
      var g0 := GroupRows(init);
      GroupRowsKeepsEveryItem(init);
      GroupRowsIds(init);
      AbsorbShape(g0, last);
      var ids := Ids(g0);
      if last.order.id in ids {
        var k := IndexOf(ids, last.order.id);
        var g := Absorb(g0, last);
        assert g == g0[k := g0[k].(items := g0[k].items + RowItems(last))];
        SumUpdate(g0, k, g[k], ItemCount);
      } else {
        SumAppend(g0, [OrderWithItems(last.order, RowItems(last))], ItemCount);
        assert Sum([OrderWithItems(last.order, RowItems(last))], ItemCount) == |RowItems(last)| by {
          assert [OrderWithItems(last.order, RowItems(last))][..0] == [];
        }
      }
    }
  }

  // ---------------------------------------------------------------------
  // getOrders / getOrder
  // ---------------------------------------------------------------------

  function ForUser(userId: Id): JoinRow -> bool {
    (r: JoinRow) => r.order.userId == userId
  }

  /** `getOrders`: the join rows, restricted to one user when a (truthy)
      user id is given, grouped into orders. */
  function GetOrders(rows: seq<JoinRow>, userId: Option<Id>): seq<OrderWithItems> {
    GroupRows(if Truthy(userId) then Filter(rows, ForUser(userId.value)) else rows)
  }

  /** Every entry's header is the order of one of the rows, and every row's
      order id has an entry. */
  lemma GroupRowsCover(rows: seq<JoinRow>)
    ensures forall g :: g in GroupRows(rows) ==> exists r :: r in rows && r.order == g.order
    ensures forall r :: r in rows ==> r.order.id in Ids(GroupRows(rows))
  {
    var g := GroupRows(rows);
    GroupRowsHeaders(rows);
    GroupRowsIds(rows);
    forall x | x in g
      ensures exists r :: r in rows && r.order == x.order
    {
      var i :| 0 <= i < |g| && g[i] == x;
      var k := FirstIndex(rows, g[i].order.id);
      assert rows[k] in rows;
    }
    forall r | r in rows
      ensures r.order.id in Ids(g)
    {
      var i :| 0 <= i < |rows| && rows[i] == r;
      assert RowIds(rows)[i] == r.order.id;
    }
  }

  /** With a user id, the listed orders are exactly the user's: every
      entry belongs to the user, and every row of the user has its entry. */
  lemma GetOrdersOwnedByUser(rows: seq<JoinRow>, userId: Id)
    requires userId != ""
    ensures forall g :: g in GetOrders(rows, Some(userId)) ==> g.order.userId == userId
    ensures forall r :: r in rows && r.order.userId == userId ==> r.order.id in Ids(GetOrders(rows, Some(userId)))
  {
    var selected := Filter(rows, ForUser(userId));
    GroupRowsCover(selected);
    assert GetOrders(rows, Some(userId)) == GroupRows(selected);
  }

  /** `getOrder`: the rows of one order; none at all means no order,
      otherwise the header of the first row and the complete rows' items. */
  function GetOrder(rows: seq<JoinRow>, id: Id): Option<OrderWithItems> {
    var selected := Filter(rows, ForOrder(id));
    if |selected| == 0 then None
    else Some(OrderWithItems(selected[0].order, LineItems(selected)))
  }

  /** The first selected row is the first row with that id. */
  lemma {:induction false} FilterFirstIsFirstIndex(rows: seq<JoinRow>, id: Id)
    requires id in RowIds(rows)
    ensures var selected := Filter(rows, ForOrder(id));
            |selected| > 0 && selected[0] == rows[FirstIndex(rows, id)]
    decreases |rows|
  {
    var init := rows[..|rows| - 1];
    var last := rows[|rows| - 1];
    RowIdsSnoc(rows);
    if id in RowIds(init) {
      FilterFirstIsFirstIndex(init, id);
      IndexOfSnoc(RowIds(init), last.order.id, id);
    } else {
      IndexOfNew(RowIds(init), id);
      ItemsForAbsent(init, id);
      forall r | r in init
        ensures !ForOrder(id)(r)
      {
        var i :| 0 <= i < |init| && init[i] == r;
        assert RowIds(init)[i] == r.order.id;
      }
      FilterNone(init, ForOrder(id));
    }
  }

  /** `getOrder` is none exactly when no row has the id, and otherwise
      agrees with the entry `getOrders` builds for that id. */
  lemma GetOrderAgreesWithGetOrders(rows: seq<JoinRow>, id: Id)
    ensures GetOrder(rows, id).None? <==> id !in RowIds(rows)
    ensures id in RowIds(rows) ==>
              id in Ids(GroupRows(rows))
              && GetOrder(rows, id) == Some(GroupRows(rows)[IndexOf(Ids(GroupRows(rows)), id)])
  {
    GroupRowsIds(rows);
    GroupRowsHeaders(rows);
    if id in RowIds(rows) {
      FilterFirstIsFirstIndex(rows, id);
      GroupRowsItems(rows);
      var g := GroupRows(rows);
      var k := IndexOf(Ids(g), id);
      assert g[k].order.id == id;
    } else {
      ItemsForAbsent(rows, id);
    }
  }

  // ---------------------------------------------------------------------
  // The left join from the tables
  // ---------------------------------------------------------------------

  function ItemForOrder(id: Id): OrderItem -> bool {
    (it: OrderItem) => it.orderId == id
  }

  function JoinItem(o: Order, products: seq<Product>): OrderItem -> JoinRow {
    (it: OrderItem) => JoinRow(o, Some(it), Storage.FindProduct(products, it.productId))
  }

  /** The join rows of one order: one per order item, or a single row with
      null item and product columns when it has none. */
  function RowsFor(o: Order, items: seq<OrderItem>, products: seq<Product>): seq<JoinRow> {
    var its := Filter(items, ItemForOrder(o.id));
    if |its| == 0 then [JoinRow(o, None, None)] else Map(its, JoinItem(o, products))
  }

  /** `orders LEFT JOIN order_items LEFT JOIN products`, orders in table order. */
  function JoinOrders(orders: seq<Order>, items: seq<OrderItem>, products: seq<Product>): seq<JoinRow>
    decreases |orders|
  {
    if |orders| == 0 then []
    else JoinOrders(orders[..|orders| - 1], items, products) + RowsFor(orders[|orders| - 1], items, products)
  }

  /** Every join row carries one of the orders. */
  lemma {:induction false} JoinRowsFromOrders(orders: seq<Order>, items: seq<OrderItem>, products: seq<Product>)
    ensures forall r :: r in JoinOrders(orders, items, products) ==> r.order in orders
    decreases |orders|
  {
    if |orders| > 0 {
      var init := orders[..|orders| - 1];
      JoinRowsFromOrders(init, items, products);
      var o := orders[|orders| - 1];
      var its := Filter(items, ItemForOrder(o.id));
      forall r | r in RowsFor(o, items, products)
        ensures r.order == o
      {
        if |its| > 0 {
          var i :| 0 <= i < |its| && Map(its, JoinItem(o, products))[i] == r;
        }
      }
    }
  }

  /** Every order has at least one join row, carrying that order. */
  lemma {:induction false} JoinRowsCoverOrders(orders: seq<Order>, items: seq<OrderItem>, products: seq<Product>)
    ensures forall o :: o in orders ==> exists r :: r in JoinOrders(orders, items, products) && r.order == o
    decreases |orders|
  {
    if |orders| > 0 {
      var init := orders[..|orders| - 1];
      var last := orders[|orders| - 1];
      JoinRowsCoverOrders(init, items, products);
      var rows := JoinOrders(orders, items, products);
      var mine := RowsFor(last, items, products);
      assert rows == JoinOrders(init, items, products) + mine;
      assert mine[0].order == last;
      assert mine[0] in rows;
      forall o | o in orders
        ensures exists r :: r in rows && r.order == o
      {
        if o != last {
          assert o in init;
        }
      }
    }
  }

  lemma RowIdsAppend(a: seq<JoinRow>, b: seq<JoinRow>)
    ensures RowIds(a + b) == RowIds(a) + RowIds(b)
  {
  }

  /** An order's own join rows all carry its id, and there is at least one. */
  lemma RowIdsOfOrder(o: Order, items: seq<OrderItem>, products: seq<Product>)
    ensures forall id :: id in RowIds(RowsFor(o, items, products)) <==> id == o.id
  {
    var own := RowsFor(o, items, products);
    JoinRowsFromOrders([o], items, products);
    assert JoinOrders([o], items, products) == own by {
      assert [o][..0] == [];
    }
    assert RowIds(own)[0] == o.id;
    forall id | id in RowIds(own)
      ensures id == o.id
    {
      var i :| 0 <= i < |own| && RowIds(own)[i] == id;
      assert own[i] in own;
    }
  }

  /** The order ids the join produces are exactly the ids of the orders:
      an order without items still yields its row of null columns. */
  lemma {:induction false} JoinRowIds(orders: seq<Order>, items: seq<OrderItem>, products: seq<Product>)
    ensures forall id :: id in RowIds(JoinOrders(orders, items, products)) <==> exists o :: o in orders && o.id == id
    decreases |orders|
  {
    if |orders| > 0 {
      var init := orders[..|orders| - 1];
      var last := orders[|orders| - 1];
      JoinRowIds(init, items, products);
      RowIdsOfOrder(last, items, products);
      RowIdsAppend(JoinOrders(init, items, products), RowsFor(last, items, products));
      assert orders == init + [last];
    }
  }

  /** The rows selected for a freshly appended order are its own rows. */
  lemma JoinSelectNewOrder(orders: seq<Order>, o: Order, items: seq<OrderItem>, products: seq<Product>)
    requires forall x :: x in orders ==> x.id != o.id
    ensures Filter(JoinOrders(orders + [o], items, products), ForOrder(o.id)) == RowsFor(o, items, products)
  {
    assert (orders + [o])[..|orders|] == orders;
    var before := JoinOrders(orders, items, products);
    var own := RowsFor(o, items, products);
    JoinRowsFromOrders(orders, items, products);
    FilterNone(before, ForOrder(o.id));
    JoinRowsFromOrders([o], items, products);
    assert JoinOrders([o], items, products) == own by {
      assert [o][..0] == [];
    }
    FilterAll(own, ForOrder(o.id));
    FilterAppend(before, own, ForOrder(o.id));
  }

  /** An item whose product exists yields exactly one line item. */
  lemma JoinedItemYieldsOne(o: Order, it: OrderItem, products: seq<Product>)
    requires exists p :: p in products && p.id == it.productId
    ensures |RowItems(JoinItem(o, products)(it))| == 1
    ensures RowItems(JoinItem(o, products)(it))[0].item == it
    ensures RowItems(JoinItem(o, products)(it))[0].product.id == it.productId
  {
    assert Storage.FindProduct(products, it.productId).Some?;
  }

  /** Rows that each yield exactly one line item yield them in row order. */
  lemma {:induction false} LineItemsOneEach(rows: seq<JoinRow>)
    requires forall i :: 0 <= i < |rows| ==> Complete(rows[i])
    ensures |LineItems(rows)| == |rows|
    ensures forall i :: 0 <= i < |rows| ==> LineItems(rows)[i] == RowItems(rows[i])[0]
    decreases |rows|
  {
    if |rows| > 0 {
      LineItemsOneEach(rows[..|rows| - 1]);
    }
  }

  /** When every item's product exists, each item yields one line item. */
  lemma LineItemsOfJoinedItems(o: Order, its: seq<OrderItem>, products: seq<Product>)
    requires forall it :: it in its ==> exists p :: p in products && p.id == it.productId
    ensures |LineItems(Map(its, JoinItem(o, products)))| == |its|
    ensures forall i :: 0 <= i < |its| ==>
              LineItems(Map(its, JoinItem(o, products)))[i].item == its[i]
              && LineItems(Map(its, JoinItem(o, products)))[i].product.id == its[i].productId
  {
    var rows := Map(its, JoinItem(o, products));
    forall i | 0 <= i < |rows|
      ensures Complete(rows[i])
      ensures RowItems(rows[i])[0].item == its[i] && RowItems(rows[i])[0].product.id == its[i].productId
    {
      assert its[i] in its;
      JoinedItemYieldsOne(o, its[i], products);
    }
    LineItemsOneEach(rows);
  }

  /** Fetching a freshly created order returns its header and, when it has
      items whose products all exist, one line item per item in creation
      order; an order created without items comes back with none. */
  lemma GetNewOrder(orders: seq<Order>, o: Order, items: seq<OrderItem>, created: seq<OrderItem>, products: seq<Product>)
    returns (g: OrderWithItems)
    requires forall x :: x in orders ==> x.id != o.id
    requires forall it :: it in items ==> it.orderId != o.id
    requires forall it :: it in created ==> it.orderId == o.id
    requires forall it :: it in created ==> exists p :: p in products && p.id == it.productId
    ensures GetOrder(JoinOrders(orders + [o], items + created, products), o.id) == Some(g)
    ensures g.order == o && |g.items| == |created|
    ensures forall i :: 0 <= i < |created| ==> g.items[i].item == created[i] && g.items[i].product.id == created[i].productId
  {
    var all := items + created;
    FilterAppend(items, created, ItemForOrder(o.id));
    FilterNone(items, ItemForOrder(o.id));
    FilterAll(created, ItemForOrder(o.id));
    assert Filter(all, ItemForOrder(o.id)) == created;
    JoinSelectNewOrder(orders, o, all, products);
    var selected := Filter(JoinOrders(orders + [o], all, products), ForOrder(o.id));
    assert selected == RowsFor(o, all, products);
    if |created| == 0 {
      assert selected == [JoinRow(o, None, None)];
      assert LineItems(selected) == LineItems([]) + RowItems(selected[0]);
    } else {
      LineItemsOfJoinedItems(o, created, products);
    }
    g := OrderWithItems(o, LineItems(selected));
  }
}
