/** The scheduled order sync (trigger/sync_order.ts): from one snapshot of
    orders, phase A creates the referenced users and creates or updates the
    orders in one transaction; phase B then, in a second transaction, makes
    sure every referenced product exists and creates the items whose
    (order, product) pair has no row yet. */
module SyncOrder {
  import opened Collections
  import opened Tables
  import opened Existence
  import opened Snapshots
  import opened Store
  import opened UserRepository
  import opened ProductRepository
  import opened OrderRepository
  import opened OrderItemRepository

  /** How a run ends: both transactions committed, or the named one failed
      and was rolled back (the run then rethrows). */
  datatype Outcome = Completed | PhaseAFailed | PhaseBFailed

  datatype RunResult = RunResult(outcome: Outcome, db: Db)

  function UserIdOf(o: OrderResponse): int {
    o.userId
  }

  function UserIdsOf(orders: seq<OrderResponse>): seq<int> {
    MapSeq(orders, UserIdOf)
  }

  /** `extractUniqueUsers(orders)`: walk the orders and add a templated user
      for each `user_id` not seen yet. */
  method ExtractUniqueUsers(orders: seq<OrderResponse>) returns (users: seq<UserInput>)
    ensures users == ReferencedUsers(UserIdsOf(orders))
  {
    var seen: set<int> := {};
    users := [];
    for i := 0 to |orders|
      invariant users == ReferencedUsers(UserIdsOf(orders[..i]))
      invariant forall id :: id in seen <==> id in UserIdsOf(orders[..i])
    {
      var id := orders[i].userId;
      ghost var before := UserIdsOf(orders[..i]);
      assert UserIdsOf(orders[..i + 1]) == before + [id] by {
        MapSeqAppend(orders[..i], [orders[i]], UserIdOf);
        assert orders[..i + 1] == orders[..i] + [orders[i]];
      }
      ReferencedUsersSnoc(before, id);
      if id !in seen {
        seen := seen + {id};
        users := users + [TemplatedUser(id)];
      }
    }
    assert orders[..|orders|] == orders;
  }

  /** The items of one order, each tagged with the order's id. */
  function ItemsOf(o: OrderResponse): seq<ItemInput> {
    seq(|o.items|, j requires 0 <= j < |o.items| => ItemInput(o.orderId, o.items[j].productId, o.items[j].quantity))
  }

  function AllOrderItems(orders: seq<OrderResponse>): seq<ItemInput> {
    Flatten(MapSeq(orders, ItemsOf))
  }

  /** `extractAllOrderItems(orders)`: push every item of every order, in
      order. */
  method ExtractAllOrderItems(orders: seq<OrderResponse>) returns (allOrderItems: seq<ItemInput>)
    ensures allOrderItems == AllOrderItems(orders)
  {
    allOrderItems := [];
    for i := 0 to |orders|
      invariant allOrderItems == AllOrderItems(orders[..i])
    {
      var order := orders[i];
      for j := 0 to |order.items|
        invariant allOrderItems == AllOrderItems(orders[..i]) + ItemsOf(order)[..j]
      {
        assert ItemsOf(order)[..j + 1] == ItemsOf(order)[..j] + [ItemsOf(order)[j]];
        allOrderItems := allOrderItems + [ItemInput(order.orderId, order.items[j].productId, order.items[j].quantity)];
      }
      assert ItemsOf(order)[..|order.items|] == ItemsOf(order);
      FlatMapSnoc(orders, ItemsOf, i);
    }
    assert orders[..|orders|] == orders;
  }

  /** The number of items over all orders. */
  function TotalItems(orders: seq<OrderResponse>): nat {
    if orders == [] then 0 else |orders[0].items| + TotalItems(orders[1..])
  }

  /** The extracted list has one entry per item of every order. */
  lemma {:induction false} AllOrderItemsCount(orders: seq<OrderResponse>)
    ensures |AllOrderItems(orders)| == TotalItems(orders)
  {
    if orders != [] {
      AllOrderItemsCount(orders[1..]);
      assert MapSeq(orders, ItemsOf) == [ItemsOf(orders[0])] + MapSeq(orders[1..], ItemsOf);
    }
  }

  /** The items of order `i` come, in their own order and tagged with its
      id, after those of the orders before it and before those of the
      orders after it. */
  lemma AllOrderItemsSplit(orders: seq<OrderResponse>, i: nat)
    requires i < |orders|
    ensures AllOrderItems(orders) == AllOrderItems(orders[..i]) + ItemsOf(orders[i]) + AllOrderItems(orders[i + 1..])
  {
    var ss := MapSeq(orders, ItemsOf);
    FlattenSplit(ss, i);
    assert ss[..i] == MapSeq(orders[..i], ItemsOf);
    assert ss[i + 1..] == MapSeq(orders[i + 1..], ItemsOf);
  }

  function ProductOf(item: ItemInput): int {
    item.productId
  }

  function ProductIdsOf(items: seq<ItemInput>): seq<int> {
    MapSeq(items, ProductOf)
  }

  /** The ids of the snapshot orders already stored when the run starts. */
  function ExistingOrderIds(stored: map<int, Order>, orders: seq<OrderResponse>): set<int> {
    GroupOrdersByExistence(stored, OrderIds(orders)).existing
  }

  function OrdersToCreate(stored: map<int, Order>, orders: seq<OrderResponse>): seq<OrderResponse> {
    Where(orders, OrderKey, ExistingOrderIds(stored, orders), false)
  }

  function OrdersToUpdate(stored: map<int, Order>, orders: seq<OrderResponse>): seq<OrderResponse> {
    Where(orders, OrderKey, ExistingOrderIds(stored, orders), true)
  }

  /** The snapshot splits into the orders to create, whose id is not stored,
      and the orders to update, whose id is; every order lands in exactly
      one of them. */
  lemma SplitOrdersSpec(stored: map<int, Order>, orders: seq<OrderResponse>)
    ensures multiset(OrdersToCreate(stored, orders)) + multiset(OrdersToUpdate(stored, orders)) == multiset(orders)
    ensures forall o :: o in OrdersToCreate(stored, orders) <==> o in orders && o.orderId !in stored
    ensures forall o :: o in OrdersToUpdate(stored, orders) <==> o in orders && o.orderId in stored
  {
    var e := ExistingOrderIds(stored, orders);
    GroupByExistenceSpec(stored.Keys, OrderIds(orders));
    WherePartition(orders, OrderKey, e);
    WhereCount(orders, OrderKey, e, false);
    WhereCount(orders, OrderKey, e, true);
    forall o | o in orders ensures o.orderId in OrderIds(orders) {
      var i :| 0 <= i < |orders| && orders[i] == o;
      assert OrderIds(orders)[i] == o.orderId;
    }
  }

  /** The users table after phase A. */
  function SyncedUsers(users: map<int, User>, orders: seq<OrderResponse>): map<int, User> {
    SkipInsert(users, UserRows(ReferencedUsers(UserIdsOf(orders))))
  }

  /** Phase A: create the referenced users, create the new orders, update
      the stored ones; `None` when a write fails and the transaction rolls
      back. */
  function PhaseA(db: Db, orders: seq<OrderResponse>): Option<Db> {
    var users := SyncedUsers(db.users, orders);
    var toCreate := OrdersToCreate(db.orders, orders);
    var toUpdate := OrdersToUpdate(db.orders, orders);
    var created := Insert(db.orders, OrderRows(toCreate));
    if created.None? || !UsersKnown(users, toCreate) then None
    else
      var updated := Update(created.value, OrderRows(toUpdate));
      if updated.None? || !UsersKnown(users, toUpdate) then None
      else Some(db.(users := users, orders := updated.value))
  }

  /** Phase B, `processOrderItems(tx, orders)`: nothing for an empty
      snapshot; otherwise ensure the products, then create the items whose
      pair has no row, priced from the returned map. */
  function ProcessItems(db: Db, orders: seq<OrderResponse>): Option<Db> {
    if orders == [] then Some(db)
    else
      var items := AllOrderItems(orders);
      var productIds := ProductIdsOf(items);
      var products := EnsuredProducts(db.products, productIds);
      var prices := PriceMap(products, productIds);
      var toCreate := ItemsWithoutRow(items, StoredPairs(db.items));
      if ReferencesKnown(db.orders, products, toCreate)
      then Some(db.(products := products, items := db.items + NewItemRows(toCreate, prices)))
      else None
  }

  /** A whole run: phase B only runs once phase A has committed. */
  function Sync(db: Db, orders: seq<OrderResponse>): RunResult {
    match PhaseA(db, orders)
    case None => RunResult(PhaseAFailed, db)
    case Some(afterA) =>
      match ProcessItems(afterA, orders)
      case None => RunResult(PhaseBFailed, afterA)
      case Some(afterB) => RunResult(Completed, afterB)
  }

  /** Every order of the snapshot names a user once its users are created,
      and the users that existed keep their rows. */
  lemma {:induction false} SyncedUsersSpec(users: map<int, User>, orders: seq<OrderResponse>)
    ensures forall o :: o in orders ==> o.userId in SyncedUsers(users, orders)
    ensures forall id :: id in users ==> id in SyncedUsers(users, orders) && SyncedUsers(users, orders)[id] == users[id]
  {
    ReferencedUsersStored(users, UserIdsOf(orders));
    forall o | o in orders ensures o.userId in UserIdsOf(orders) {
      var i :| 0 <= i < |orders| && orders[i] == o;
      assert UserIdsOf(orders)[i] == o.userId;
    }
  }

  /** The rows of the orders to create, and to update, are the snapshot's
      rows on each side of the stored ids. */
  lemma SplitOrderRows(stored: map<int, Order>, orders: seq<OrderResponse>)
    ensures OrderRows(OrdersToCreate(stored, orders)) == RowsWhere(OrderRows(orders), ExistingOrderIds(stored, orders), false)
    ensures OrderRows(OrdersToUpdate(stored, orders)) == RowsWhere(OrderRows(orders), ExistingOrderIds(stored, orders), true)
    ensures forall k :: k in KeysOf(OrderRows(orders)) ==> (k in ExistingOrderIds(stored, orders) <==> k in stored)
  {
    var e := ExistingOrderIds(stored, orders);
    WhereRows(orders, OrderKey, e, false, OrderRow);
    WhereRows(orders, OrderKey, e, true, OrderRow);
    GroupByExistenceSpec(stored.Keys, OrderIds(orders));
    forall k | k in KeysOf(OrderRows(orders)) ensures k in OrderIds(orders) {
      var i :| 0 <= i < |orders| && KeysOf(OrderRows(orders))[i] == k;
      assert OrderIds(orders)[i] == k;
    }
  }

  /** Creating the new orders fails exactly when a new order id is given
      more than once. */
  lemma CreateNewOrdersSpec(stored: map<int, Order>, orders: seq<OrderResponse>)
    ensures Insert(stored, OrderRows(OrdersToCreate(stored, orders))).Some? <==>
      forall i, j :: 0 <= i < j < |orders| && orders[i].orderId == orders[j].orderId ==> orders[i].orderId in stored
  {
    var rows := OrderRows(orders);
    SplitOrderRows(stored, orders);
    InsertOutside(stored, rows, ExistingOrderIds(stored, orders));
    assert forall i :: 0 <= i < |rows| ==> rows[i].0 == orders[i].orderId;
  }

  /** Updating the stored orders after creating the new ones leaves every
      snapshot id with the fields of its last occurrence. */
  lemma UpdateAfterCreate(stored: map<int, Order>, orders: seq<OrderResponse>)
    requires Insert(stored, OrderRows(OrdersToCreate(stored, orders))).Some?
    ensures Update(Insert(stored, OrderRows(OrdersToCreate(stored, orders))).value, OrderRows(OrdersToUpdate(stored, orders)))
         == Some(stored + LastValues(OrderRows(orders)))
  {
    SplitOrderRows(stored, orders);
    InsertThenUpdate(stored, OrderRows(orders), ExistingOrderIds(stored, orders));
  }

  /** Both sides of the split name users that exist once the snapshot's
      users are created. */
  lemma SplitUsersKnown(db: Db, orders: seq<OrderResponse>)
    ensures UsersKnown(SyncedUsers(db.users, orders), OrdersToCreate(db.orders, orders))
    ensures UsersKnown(SyncedUsers(db.users, orders), OrdersToUpdate(db.orders, orders))
  {
    var e := ExistingOrderIds(db.orders, orders);
    SyncedUsersSpec(db.users, orders);
    WhereCount(orders, OrderKey, e, false);
    WhereCount(orders, OrderKey, e, true);
  }

  /** Phase A commits exactly when every order id repeated in the snapshot is
      already stored (a new id given twice makes `createMany` fail). */
  lemma PhaseACommits(db: Db, orders: seq<OrderResponse>)
    ensures PhaseA(db, orders).Some? <==>
      forall i, j :: 0 <= i < j < |orders| && orders[i].orderId == orders[j].orderId ==> orders[i].orderId in db.orders
  {
    SplitUsersKnown(db, orders);
    CreateNewOrdersSpec(db.orders, orders);
    if Insert(db.orders, OrderRows(OrdersToCreate(db.orders, orders))).Some? {
      UpdateAfterCreate(db.orders, orders);
    }
  }

  /** A committed phase A holds, for every snapshot order id, the fields of
      its last occurrence, keeps the other orders, makes every referenced
      user exist without touching the existing ones, and writes no other
      table. */
  lemma PhaseAResult(db: Db, orders: seq<OrderResponse>)
    requires PhaseA(db, orders).Some?
    ensures var r := PhaseA(db, orders).value;
      && r.orders == db.orders + LastValues(OrderRows(orders))
      && (forall o :: o in orders ==> o.userId in r.users && o.orderId in r.orders)
      && (forall id :: id in db.users ==> id in r.users && r.users[id] == db.users[id])
      && r.products == db.products && r.items == db.items && r.reviews == db.reviews
  {
    PhaseAStore(db, orders);
    SyncedUsersSpec(db.users, orders);
    SnapshotOrdersStored(db.orders, orders);
  }

  /** A committed phase A is the store with the referenced users added and
      every snapshot order written with its last occurrence. */
  lemma PhaseAStore(db: Db, orders: seq<OrderResponse>)
    requires PhaseA(db, orders).Some?
    ensures PhaseA(db, orders).value
         == db.(users := SyncedUsers(db.users, orders), orders := db.orders + LastValues(OrderRows(orders)))
  {
    UpdateAfterCreate(db.orders, orders);
  }

  /** Writing the snapshot's order rows leaves every snapshot order id
      stored. */
  lemma SnapshotOrdersStored(stored: map<int, Order>, orders: seq<OrderResponse>)
    ensures forall o :: o in orders ==> o.orderId in stored + LastValues(OrderRows(orders))
  {
    var rows := OrderRows(orders);
    LastValuesKeys(rows);
    forall o | o in orders ensures o.orderId in KeysOf(rows) {
      var i :| 0 <= i < |orders| && orders[i] == o;
      assert KeysOf(rows)[i] == o.orderId;
    }
  }

  /** An item is extracted exactly when it is an item of one of the
      snapshot's orders. */
  lemma AllOrderItemsMember(orders: seq<OrderResponse>)
    ensures forall item :: item in AllOrderItems(orders) <==> exists o :: o in orders && item in ItemsOf(o)
  {
    FlatMapMember(orders, ItemsOf);
  }

  /** The snapshot items whose (order, product) pair has no row yet: the
      ones phase B creates, in order. */
  function ItemsToCreate(db: Db, orders: seq<OrderResponse>): seq<ItemInput> {
    ItemsWithoutRow(AllOrderItems(orders), StoredPairs(db.items))
  }

  /** The row phase B is meant to write for an item: the product's stored
      price, or 0 for a product it had to create. */
  function PricedRow(item: ItemInput, products: map<int, Product>): ItemRow {
    ItemRow(item.orderId, Some(item.productId), item.quantity,
            if item.productId in products then products[item.productId].price else 0)
  }

  /** The items to create are the snapshot items whose pair had no row. */
  lemma ItemsToCreateMember(db: Db, orders: seq<OrderResponse>)
    ensures forall item :: item in ItemsToCreate(db, orders) <==>
      item in AllOrderItems(orders) && Pair(item) !in StoredPairs(db.items)
  {
    WhereCount(AllOrderItems(orders), Pair, StoredPairs(db.items), false);
  }

  /** Phase B commits on a store that holds every snapshot order: the
      products it needs are created first, so only an unknown order could
      make the item write fail. */
  lemma ProcessItemsCommits(db: Db, orders: seq<OrderResponse>)
    requires forall o :: o in orders ==> o.orderId in db.orders
    ensures ProcessItems(db, orders).Some?
  {
    if orders != [] {
      var items := AllOrderItems(orders);
      var ids := ProductIdsOf(items);
      var products := EnsuredProducts(db.products, ids);
      var toCreate := ItemsWithoutRow(items, StoredPairs(db.items));
      ItemsKnown(db.orders, orders);
      EnsureProductsExistSpec(db.products, ids);
      WhereCount(items, Pair, StoredPairs(db.items), false);
      assert ReferencesKnown(db.orders, products, toCreate);
    }
  }

  /** Every extracted item names a snapshot order, and its product is among
      the extracted product ids. */
  lemma ItemsKnown(stored: map<int, Order>, orders: seq<OrderResponse>)
    requires forall o :: o in orders ==> o.orderId in stored
    ensures forall item :: item in AllOrderItems(orders) ==>
      item.orderId in stored && item.productId in ProductIdsOf(AllOrderItems(orders))
  {
    var items := AllOrderItems(orders);
    AllOrderItemsMember(orders);
    forall item | item in items ensures item.orderId in stored && item.productId in ProductIdsOf(items) {
      var o :| o in orders && item in ItemsOf(o);
      var j :| 0 <= j < |ItemsOf(o)| && ItemsOf(o)[j] == item;
      var i :| 0 <= i < |items| && items[i] == item;
      assert ProductIdsOf(items)[i] == item.productId;
    }
  }

  /** After phase B every item's product exists and every item's (order,
      product) pair has a row; existing products are unchanged and the added
      ones are placeholders; the old item rows come first and unchanged;
      users, orders and reviews are not written. */
  lemma ProcessItemsStores(db: Db, orders: seq<OrderResponse>)
    requires ProcessItems(db, orders).Some?
    ensures var r := ProcessItems(db, orders).value;
      && r.users == db.users && r.orders == db.orders && r.reviews == db.reviews
      && (forall item :: item in AllOrderItems(orders) ==>
            item.productId in r.products && Pair(item) in StoredPairs(r.items))
      && (forall id :: id in db.products ==> id in r.products && r.products[id] == db.products[id])
      && (forall id :: id in r.products && id !in db.products ==> r.products[id] == Placeholder(id))
      && db.items <= r.items
  {
    if orders != [] {
      var items := AllOrderItems(orders);
      var ids := ProductIdsOf(items);
      var prices := PriceMap(EnsuredProducts(db.products, ids), ids);
      EnsureProductsExistSpec(db.products, ids);
      forall item | item in items ensures item.productId in ids {
        var i :| 0 <= i < |items| && items[i] == item;
        assert ids[i] == item.productId;
      }
      GroupThenCreate(db.items, items, prices);
    }
  }

  /** Phase B appends one row per item to create, in order: the item's
      order, product and quantity, priced at the product's stored price, or
      0 for a product phase B created. */
  lemma ProcessItemsNewRows(db: Db, orders: seq<OrderResponse>)
    requires ProcessItems(db, orders).Some?
    ensures var r := ProcessItems(db, orders).value;
      var added := ItemsToCreate(db, orders);
      && |r.items| == |db.items| + |added|
      && forall j :: 0 <= j < |added| ==> r.items[|db.items| + j] == PricedRow(added[j], db.products)
  {
    var items := AllOrderItems(orders);
    var ids := ProductIdsOf(items);
    var prices := PriceMap(EnsuredProducts(db.products, ids), ids);
    var added := ItemsToCreate(db, orders);
    var rows := NewItemRows(added, prices);
    ProcessItemsAppends(db, orders);
    ItemsToCreateMember(db, orders);
    forall j | 0 <= j < |added| ensures rows[j] == PricedRow(added[j], db.products) {
      PricedRowOf(db, orders, added[j]);
    }
  }

  /** Phase B appends the rows of the items whose pair had no row. */
  lemma ProcessItemsAppends(db: Db, orders: seq<OrderResponse>)
    requires ProcessItems(db, orders).Some?
    ensures var ids := ProductIdsOf(AllOrderItems(orders));
      ProcessItems(db, orders).value.items
        == db.items + NewItemRows(ItemsToCreate(db, orders), PriceMap(EnsuredProducts(db.products, ids), ids))
  {
    if orders == [] {
      assert AllOrderItems(orders) == [];
      assert ItemsWithoutRow([], StoredPairs(db.items)) == [];
    }
  }

  /** The price map phase B reads back prices a snapshot item at its
      product's stored price, or 0 for a placeholder. */
  lemma PricedRowOf(db: Db, orders: seq<OrderResponse>, item: ItemInput)
    requires item in AllOrderItems(orders)
    ensures var ids := ProductIdsOf(AllOrderItems(orders));
      NewItemRow(item, PriceMap(EnsuredProducts(db.products, ids), ids)) == PricedRow(item, db.products)
  {
    var items := AllOrderItems(orders);
    var ids := ProductIdsOf(items);
    PriceMapSpec(db.products, ids);
    var k :| 0 <= k < |items| && items[k] == item;
    assert ids[k] == item.productId;
  }

  /** Phase B has no key or foreign-key failure after phase A committed:
      a run either rolls back phase A, exactly when a new order id repeats in
      the snapshot, or completes. */
  lemma SyncOutcome(db: Db, orders: seq<OrderResponse>)
    ensures Sync(db, orders).outcome != PhaseBFailed
    ensures Sync(db, orders).outcome == PhaseAFailed <==>
      exists i, j :: 0 <= i < j < |orders| && orders[i].orderId == orders[j].orderId && orders[i].orderId !in db.orders
    ensures Sync(db, orders).outcome == PhaseAFailed ==> Sync(db, orders).db == db
  {
    PhaseACommits(db, orders);
    if PhaseA(db, orders).Some? {
      PhaseAResult(db, orders);
      ProcessItemsCommits(PhaseA(db, orders).value, orders);
    }
  }

  /** An empty snapshot completes and writes nothing. */
  lemma SyncEmpty(db: Db)
    ensures Sync(db, []) == RunResult(Completed, db)
  {
    assert ReferencedUsers(UserIdsOf([])) == [];
    assert PhaseA(db, []) == Some(db);
  }

  /** When every snapshot order id is stored, all orders go to the update
      side. */
  lemma SplitAllStored(stored: map<int, Order>, orders: seq<OrderResponse>)
    requires forall o :: o in orders ==> o.orderId in stored
    ensures OrdersToCreate(stored, orders) == [] && OrdersToUpdate(stored, orders) == orders
  {
    var e := ExistingOrderIds(stored, orders);
    GroupByExistenceSpec(stored.Keys, OrderIds(orders));
    forall o | o in orders ensures o.orderId in e {
      var i :| 0 <= i < |orders| && orders[i] == o;
      assert OrderIds(orders)[i] == o.orderId;
    }
    WhereAll(orders, OrderKey, e, true);
    WhereNone(orders, OrderKey, e, false);
  }

  /** Phase A writes nothing when every snapshot user exists and every
      snapshot order already holds the fields the snapshot gives it. */
  lemma PhaseAStable(db: Db, orders: seq<OrderResponse>)
    requires forall o :: o in orders ==> o.userId in db.users && o.orderId in db.orders
    requires db.orders + LastValues(OrderRows(orders)) == db.orders
    ensures PhaseA(db, orders) == Some(db)
  {
    forall id | id in UserIdsOf(orders) ensures id in db.users {
      var i :| 0 <= i < |orders| && UserIdsOf(orders)[i] == id;
      assert orders[i] in orders;
    }
    ReferencedUsersPresent(db.users, UserIdsOf(orders));
    SplitAllStored(db.orders, orders);
    UpdateSpec(db.orders, OrderRows(orders));
    forall i | 0 <= i < |OrderRows(orders)| ensures OrderRows(orders)[i].0 in db.orders {
      assert orders[i] in orders;
    }
  }

  /** `ensureProductsExist` writes nothing when every id is a product. */
  lemma EnsuredProductsPresent(products: map<int, Product>, ids: seq<int>)
    requires forall id :: id in ids ==> id in products
    ensures EnsuredProducts(products, ids) == products
  {
    GroupByExistenceSpec(products.Keys, ids);
    var missing := GroupProductsByExistence(products, ids).missing;
    forall id ensures id !in missing {
      assert id in missing ==> id in ids && id !in products.Keys;
    }
    NoMembersEmpty(missing);
  }

  /** Phase B writes nothing when every snapshot item already has its
      product and a row for its pair. */
  lemma ProcessItemsStable(db: Db, orders: seq<OrderResponse>)
    requires forall item :: item in AllOrderItems(orders) ==>
      item.productId in db.products && Pair(item) in StoredPairs(db.items)
    ensures ProcessItems(db, orders) == Some(db)
  {
    if orders != [] {
      var items := AllOrderItems(orders);
      var ids := ProductIdsOf(items);
      var toCreate := ItemsWithoutRow(items, StoredPairs(db.items));
      forall id | id in ids ensures id in db.products {
        var k :| 0 <= k < |ids| && ids[k] == id;
        assert items[k] in items;
      }
      EnsuredProductsPresent(db.products, ids);
      WhereCount(items, Pair, StoredPairs(db.items), false);
      assert toCreate == [];
      assert db.items + NewItemRows(toCreate, PriceMap(db.products, ids)) == db.items;
    }
  }

  /** A completed run leaves a store on which the same snapshot completes
      again and writes nothing: the sync converges. */
  lemma SyncIdempotent(db: Db, orders: seq<OrderResponse>)
    requires Sync(db, orders).outcome == Completed
    ensures Sync(Sync(db, orders).db, orders) == RunResult(Completed, Sync(db, orders).db)
  {
    var afterB := Sync(db, orders).db;
    CompletedRunHolds(db, orders);
    PhaseAStable(afterB, orders);
    ProcessItemsStable(afterB, orders);
  }

  /** After a completed run every snapshot user, order, product and item
      pair is stored, and every order holds its last occurrence. */
  lemma CompletedRunHolds(db: Db, orders: seq<OrderResponse>)
    requires Sync(db, orders).outcome == Completed
    ensures var d := Sync(db, orders).db;
      && (forall o :: o in orders ==> o.userId in d.users && o.orderId in d.orders)
      && d.orders + LastValues(OrderRows(orders)) == d.orders
      && (forall item :: item in AllOrderItems(orders) ==>
            item.productId in d.products && Pair(item) in StoredPairs(d.items))
  {
    var afterA := PhaseA(db, orders).value;
    PhaseAResult(db, orders);
    ProcessItemsStores(afterA, orders);
    var l := LastValues(OrderRows(orders));
    MapUnionTwice(db.orders, l);
  }

  /** Phase A keeps the store's foreign keys: every order it writes names a
      user it made sure of, and no row loses its target. */
  lemma PhaseAConsistent(db: Db, orders: seq<OrderResponse>)
    requires Consistent(db)
    requires PhaseA(db, orders).Some?
    ensures Consistent(PhaseA(db, orders).value)
  {
    var r := PhaseA(db, orders).value;
    var rows := OrderRows(orders);
    PhaseAResult(db, orders);
    LastValuesKeys(rows);
    forall id | id in r.orders ensures r.orders[id].userId in r.users {
      if id in LastValues(rows) {
        var k :| 0 <= k < |rows| && rows[k] == (id, LastValues(rows)[id]);
        assert orders[k] in orders;
      }
    }
  }

  /** Phase B keeps the store's foreign keys when every snapshot order is
      stored: each row it adds names a snapshot order and a product it made
      sure of. */
  lemma ProcessItemsConsistent(db: Db, orders: seq<OrderResponse>)
    requires Consistent(db)
    requires forall o :: o in orders ==> o.orderId in db.orders
    requires ProcessItems(db, orders).Some?
    ensures Consistent(ProcessItems(db, orders).value)
  {
    var r := ProcessItems(db, orders).value;
    ProcessItemsStores(db, orders);
    ProcessItemsNewRows(db, orders);
    ItemsKnown(db.orders, orders);
    ItemsAddedConsistent(db, r, orders);
  }

  lemma ItemsAddedConsistent(db: Db, r: Db, orders: seq<OrderResponse>)
    requires Consistent(db)
    requires r.users == db.users && r.orders == db.orders && r.reviews == db.reviews
    requires forall id :: id in db.products ==> id in r.products
    requires forall item :: item in AllOrderItems(orders) ==> item.orderId in db.orders && item.productId in r.products
    requires db.items <= r.items
    requires |r.items| == |db.items| + |ItemsToCreate(db, orders)|
    requires forall j :: 0 <= j < |ItemsToCreate(db, orders)| ==>
      r.items[|db.items| + j] == PricedRow(ItemsToCreate(db, orders)[j], db.products)
    ensures Consistent(r)
  {
    forall row | row in r.items
      ensures row.orderId in r.orders && (row.productId.Some? ==> row.productId.value in r.products)
    {
      var i :| 0 <= i < |r.items| && r.items[i] == row;
      if i < |db.items| {
        assert db.items[i] == row;
        assert row in db.items;
        if row.productId.Some? {
          var id := row.productId.value;
          assert id in db.products;
        }
      } else {
        var item := ItemsToCreate(db, orders)[i - |db.items|];
        ItemsToCreateMember(db, orders);
        assert item in ItemsToCreate(db, orders);
        assert row == PricedRow(item, db.products);
      }
    }
  }


  /** A run keeps the store's foreign keys, whatever its outcome. */
  lemma SyncConsistent(db: Db, orders: seq<OrderResponse>)
    requires Consistent(db)
    ensures Consistent(Sync(db, orders).db)
  {
    if PhaseA(db, orders).Some? {
      var afterA := PhaseA(db, orders).value;
      PhaseAConsistent(db, orders);
      PhaseAResult(db, orders);
      if ProcessItems(afterA, orders).Some? {
        ProcessItemsConsistent(afterA, orders);
      }
    }
  }

  /** `processOrderItems(tx, orders)`. */
  method ProcessOrderItems(tx: Database, orders: seq<OrderResponse>, batchSetting: nat) returns (ok: bool)
    modifies tx`products, tx`items
    ensures ok == ProcessItems(old(tx.Value()), orders).Some?
    ensures ok ==> tx.Value() == ProcessItems(old(tx.Value()), orders).value
  {
    if |orders| == 0 {
      return true;
    }
    var allOrderItems := ExtractAllOrderItems(orders);
    var allProductIds := ProductIdsOf(allOrderItems);
    var productPriceMap := EnsureProductsExist(tx, allProductIds, batchSetting);
    var itemsToCreate := GroupOrderItemsByExistence(tx, allOrderItems);
    ok := CreateOrderItems(tx, itemsToCreate, productPriceMap, batchSetting);
  }

  /** `syncOrder.run` on a fetched snapshot: classify the orders against the
      store, run phase A in a transaction, then phase B in another; a failed
      phase restores the store as it was when that phase began. */
  method Run(db: Database, orderData: seq<OrderResponse>, batchSetting: nat) returns (outcome: Outcome)
    modifies db
    ensures RunResult(outcome, db.Value()) == Sync(old(db.Value()), orderData)
  {
    var allUsers := ExtractUniqueUsers(orderData);
    var orderIds := OrderIds(orderData);
    var existingOrderIds := GroupOrdersByExistence(db.orders, orderIds).existing;
    var ordersToCreate := Where(orderData, OrderKey, existingOrderIds, false);
    var ordersToUpdate := Where(orderData, OrderKey, existingOrderIds, true);

    var beforeA := db.Value();
    CreateUsers(db, allUsers, batchSetting);
    var ok := CreateOrders(db, ordersToCreate, batchSetting);
    if ok {
      ok := UpdateOrders(db, ordersToUpdate, batchSetting);
    }
    if !ok {
      db.Restore(beforeA);
      return PhaseAFailed;
    }
    assert PhaseA(beforeA, orderData) == Some(db.Value());

    var beforeB := db.Value();
    ok := ProcessOrderItems(db, orderData, batchSetting);
    if !ok {
      db.Restore(beforeB);
      return PhaseBFailed;
    }
    return Completed;
  }
}
