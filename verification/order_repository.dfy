/** Order writes of the order sync (lib/repositories/orderRepository.ts). An
    order's `user_id` must name a stored user: a write that breaks this
    fails, like a key conflict does. */
module OrderRepository {
  import opened Collections
  import opened Batching
  import opened Tables
  import opened Existence
  import opened Snapshots
  import opened Store

  /** The stored row for a feed order: its user, total and status under
      `order_id`. The items go to their own table. */
  function OrderRow(o: OrderResponse): (int, Order) {
    (o.orderId, Order(o.userId, o.totalPrice, o.status))
  }

  function OrderRows(orders: seq<OrderResponse>): seq<(int, Order)> {
    MapSeq(orders, OrderRow)
  }

  function OrderKey(o: OrderResponse): int {
    o.orderId
  }

  function OrderIds(orders: seq<OrderResponse>): (ids: seq<int>)
    ensures |ids| == |orders| && forall i :: 0 <= i < |orders| ==> ids[i] == orders[i].orderId
  {
    MapSeq(orders, OrderKey)
  }

  /** `groupOrdersByExistence(orderIds)`, over the order table. */
  function GroupOrdersByExistence(orders: map<int, Order>, orderIds: seq<int>): Grouping {
    GroupByExistence(orders.Keys, orderIds)
  }

  /** Every order names a stored user. */
  predicate UsersKnown(users: map<int, User>, orders: seq<OrderResponse>) {
    forall o :: o in orders ==> o.userId in users
  }

  /** `createOrders(tx, orders)`: `createMany` per batch, without
      `skipDuplicates`; a stored or repeated order id, or an unknown user,
      fails the write. */
  method CreateOrders(tx: Database, orders: seq<OrderResponse>, batchSetting: nat) returns (ok: bool)
    modifies tx`orders
    ensures ok == (Insert(old(tx.orders), OrderRows(orders)).Some? && UsersKnown(tx.users, orders))
    ensures ok ==> tx.orders == Insert(old(tx.orders), OrderRows(orders)).value
  {
    ok := true;
    if |orders| == 0 {
      return;
    }
    var chunks := Chunk(orders, BatchSize(batchSetting));
    for i := 0 to |chunks|
      invariant Insert(old(tx.orders), OrderRows(Flatten(chunks[..i]))) == Some(tx.orders)
      invariant UsersKnown(tx.users, Flatten(chunks[..i]))
    {
      FlattenSnoc(chunks, i);
      InsertChunk(old(tx.orders), chunks, i, OrderRow);
      var written := Insert(tx.orders, OrderRows(chunks[i]));
      if written.None? || !UsersKnown(tx.users, chunks[i]) {
        CreateFailsForAll(old(tx.orders), tx.users, chunks, i);
        return false;
      }
      tx.orders := written.value;
    }
    assert chunks[..|chunks|] == chunks;
  }

  /** A failing `createMany` batch fails the creation of all orders. */
  lemma CreateFailsForAll(stored: map<int, Order>, users: map<int, User>,
                          chunks: seq<seq<OrderResponse>>, i: nat)
    requires i < |chunks|
    requires Insert(stored, OrderRows(Flatten(chunks[..i + 1]))).None? || !UsersKnown(users, chunks[i])
    ensures Insert(stored, OrderRows(Flatten(chunks))).None? || !UsersKnown(users, Flatten(chunks))
  {
    if !UsersKnown(users, chunks[i]) {
      var o :| o in chunks[i] && o.userId !in users;
      FlattenContains(chunks, i, o);
    } else {
      InsertFailsForAll(stored, chunks, i, OrderRow);
    }
  }

  /** `createOrders` succeeds exactly when no order id is stored or repeated
      and every user is known. */
  lemma CreateOrdersSucceeds(stored: map<int, Order>, users: map<int, User>, orders: seq<OrderResponse>)
    ensures (Insert(stored, OrderRows(orders)).Some? && UsersKnown(users, orders)) <==>
      && (forall i :: 0 <= i < |orders| ==> orders[i].orderId !in stored && orders[i].userId in users)
      && (forall i, j :: 0 <= i < j < |orders| ==> orders[i].orderId != orders[j].orderId)
  {
    var rows := OrderRows(orders);
    assert KeysOf(rows) == OrderIds(orders);
    InsertSpec(stored, rows);
    assert forall o :: o in orders ==> exists i :: 0 <= i < |orders| && orders[i] == o;
  }

  /** A successful creation stores every order under its id and leaves the
      other orders as they were. */
  lemma CreateOrdersSpec(stored: map<int, Order>, orders: seq<OrderResponse>)
    requires Insert(stored, OrderRows(orders)).Some?
    ensures var r := Insert(stored, OrderRows(orders)).value;
      && (forall id :: id in r <==> id in stored || id in OrderIds(orders))
      && (forall id :: id in stored ==> r[id] == stored[id])
      && (forall i :: 0 <= i < |orders| ==> r[orders[i].orderId] == OrderRow(orders[i]).1)
  {
    var rows := OrderRows(orders);
    assert KeysOf(rows) == OrderIds(orders);
    InsertSpec(stored, rows);
    LastValuesKeys(rows);
    InsertStoresRows(stored, rows);
  }

  /** `updateOrders(tx, orders)`: batch by batch, one `update` per order. */
  method UpdateOrders(tx: Database, orders: seq<OrderResponse>, batchSetting: nat) returns (ok: bool)
    modifies tx`orders
    ensures ok == (Update(old(tx.orders), OrderRows(orders)).Some? && UsersKnown(tx.users, orders))
    ensures ok ==> tx.orders == Update(old(tx.orders), OrderRows(orders)).value
  {
    ok := true;
    if |orders| == 0 {
      return;
    }
    var chunks := Chunk(orders, BatchSize(batchSetting));
    for i := 0 to |chunks|
      invariant Update(old(tx.orders), OrderRows(Flatten(chunks[..i]))) == Some(tx.orders)
      invariant UsersKnown(tx.users, Flatten(chunks[..i]))
    {
      FlattenSnoc(chunks, i);
      UpdateChunk(old(tx.orders), chunks, i, OrderRow);
      ok := UpdateBatch(tx, chunks[i]);
      if !ok {
        UpdateFailsForAll(old(tx.orders), tx.users, chunks, i);
        return;
      }
    }
    assert chunks[..|chunks|] == chunks;
  }

  /** The updates of one batch (issued together and awaited together; here
      one after the other). */
  method UpdateBatch(tx: Database, batch: seq<OrderResponse>) returns (ok: bool)
    modifies tx`orders
    ensures ok == (Update(old(tx.orders), OrderRows(batch)).Some? && UsersKnown(tx.users, batch))
    ensures ok ==> tx.orders == Update(old(tx.orders), OrderRows(batch)).value
  {
    for j := 0 to |batch|
      invariant Update(old(tx.orders), OrderRows(batch[..j])) == Some(tx.orders)
      invariant UsersKnown(tx.users, batch[..j])
    {
      var o := batch[j];
      assert batch[..j + 1] == batch[..j] + [o];
      MapSeqAppend(batch[..j], [o], OrderRow);
      UpdateAppend(old(tx.orders), OrderRows(batch[..j]), [OrderRow(o)]);
      if o.orderId !in tx.orders || o.userId !in tx.users {
        assert batch == batch[..j + 1] + batch[j + 1..];
        MapSeqAppend(batch[..j + 1], batch[j + 1..], OrderRow);
        UpdateAppend(old(tx.orders), OrderRows(batch[..j + 1]), OrderRows(batch[j + 1..]));
        assert o in batch;
        return false;
      }
      tx.orders := tx.orders[o.orderId := OrderRow(o).1];
    }
    assert batch[..|batch|] == batch;
    return true;
  }

  /** A failing update batch fails the updates of all orders. */
  lemma UpdateFailsForAll(stored: map<int, Order>, users: map<int, User>,
                          chunks: seq<seq<OrderResponse>>, i: nat)
    requires i < |chunks|
    requires Update(stored, OrderRows(Flatten(chunks[..i + 1]))).None? || !UsersKnown(users, chunks[i])
    ensures Update(stored, OrderRows(Flatten(chunks))).None? || !UsersKnown(users, Flatten(chunks))
  {
    if !UsersKnown(users, chunks[i]) {
      var o :| o in chunks[i] && o.userId !in users;
      FlattenContains(chunks, i, o);
    } else {
      assert chunks == chunks[..i + 1] + chunks[i + 1..];
      FlattenAppend(chunks[..i + 1], chunks[i + 1..]);
      MapSeqAppend(Flatten(chunks[..i + 1]), Flatten(chunks[i + 1..]), OrderRow);
      UpdateAppend(stored, OrderRows(Flatten(chunks[..i + 1])), OrderRows(Flatten(chunks[i + 1..])));
    }
  }

  /** `updateOrders` succeeds exactly when every order id is stored and every
      user is known. */
  lemma UpdateOrdersSucceeds(stored: map<int, Order>, users: map<int, User>, orders: seq<OrderResponse>)
    ensures (Update(stored, OrderRows(orders)).Some? && UsersKnown(users, orders)) <==>
      forall i :: 0 <= i < |orders| ==> orders[i].orderId in stored && orders[i].userId in users
  {
    UpdateSpec(stored, OrderRows(orders));
    assert forall o :: o in orders ==> exists i :: 0 <= i < |orders| && orders[i] == o;
  }

  /** Successful updates keep the set of orders, leave orders not in the
      input as they were, and give each order the fields of its last
      occurrence. */
  lemma UpdateOrdersSpec(stored: map<int, Order>, orders: seq<OrderResponse>)
    requires Update(stored, OrderRows(orders)).Some?
    ensures var r := Update(stored, OrderRows(orders)).value;
      && r.Keys == stored.Keys
      && (forall id :: id in stored && id !in OrderIds(orders) ==> r[id] == stored[id])
      && (forall i :: (0 <= i < |orders| &&
            forall j :: i < j < |orders| ==> orders[j].orderId != orders[i].orderId) ==>
            orders[i].orderId in r && r[orders[i].orderId] == OrderRow(orders[i]).1)
  {
    var rows := OrderRows(orders);
    assert KeysOf(rows) == OrderIds(orders);
    UpdateSpec(stored, rows);
    LastValuesKeys(rows);
    UpdateStoresLastRows(stored, rows);
  }
}
