/** Order-item writes of the order sync
    (lib/repositories/orderItemRepository.ts). Items are rows with generated
    ids; the sync identifies them by their (order id, product id) pair. An
    item must name a stored order and a stored product: a write that breaks
    this fails. */
module OrderItemRepository {
  import opened Collections
  import opened Batching
  import opened Store

  datatype ItemInput = ItemInput(orderId: int, productId: int, quantity: int)

  /** The key `${order_id}-${product_id}` of an item. Distinct integer pairs
      give distinct keys, so the pair stands for the string. */
  function Pair(item: ItemInput): (int, int) {
    (item.orderId, item.productId)
  }

  /** The pairs of the stored items that have a product. */
  function StoredPairs(rows: seq<ItemRow>): set<(int, int)> {
    if rows == [] then {}
    else
      var last := rows[|rows| - 1];
      StoredPairs(rows[..|rows| - 1]) + if last.productId.Some? then {(last.orderId, last.productId.value)} else {}
  }

  lemma {:induction false} StoredPairsSpec(rows: seq<ItemRow>)
    ensures forall p :: p in StoredPairs(rows) <==>
      exists i :: 0 <= i < |rows| && rows[i].orderId == p.0 && rows[i].productId == Some(p.1)
  {
    if rows != [] {
      var init := rows[..|rows| - 1];
      StoredPairsSpec(init);
      assert forall i :: 0 <= i < |init| ==> rows[i] == init[i];
    }
  }

  lemma {:induction false} StoredPairsAppend(a: seq<ItemRow>, b: seq<ItemRow>)
    ensures StoredPairs(a + b) == StoredPairs(a) + StoredPairs(b)
  {
    if b == [] {
      assert a + b == a;
    } else {
      assert (a + b)[..|a + b| - 1] == a + b[..|b| - 1];
      StoredPairsAppend(a, b[..|b| - 1]);
    }
  }

  /** The inputs whose pair has no stored item, in input order. */
  function ItemsWithoutRow(items: seq<ItemInput>, stored: set<(int, int)>): seq<ItemInput> {
    Where(items, Pair, stored, false)
  }

  /** `groupOrderItemsByExistence(tx, orderItems)`: read the items of the
      input's orders, collect their pairs (skipping items without a product),
      and keep the inputs whose pair is not among them. */
  method GroupOrderItemsByExistence(tx: Database, orderItems: seq<ItemInput>)
    returns (itemsToCreate: seq<ItemInput>)
    ensures itemsToCreate == ItemsWithoutRow(orderItems, StoredPairs(tx.items))
  {
    var orderIds := set item | item in orderItems :: item.orderId;
    var existingKeys: set<(int, int)> := {};
    for k := 0 to |tx.items|
      invariant existingKeys == set p | p in StoredPairs(tx.items[..k]) && p.0 in orderIds
    {
      var row := tx.items[k];
      assert tx.items[..k + 1][..k] == tx.items[..k];
      if row.orderId in orderIds && row.productId.Some? {
        existingKeys := existingKeys + {(row.orderId, row.productId.value)};
      }
    }
    assert tx.items[..|tx.items|] == tx.items;
    itemsToCreate := [];
    for j := 0 to |orderItems|
      invariant itemsToCreate == ItemsWithoutRow(orderItems[..j], StoredPairs(tx.items))
    {
      var item := orderItems[j];
      assert orderItems[..j + 1][..j] == orderItems[..j];
      assert item.orderId in orderIds;
      if Pair(item) !in existingKeys {
        itemsToCreate := itemsToCreate + [item];
      }
    }
    assert orderItems[..|orderItems|] == orderItems;
  }

  /** The classifier keeps each input whose pair has no stored row as often
      as it occurs (repeats within the input are not collapsed) and drops
      every input whose pair has one. */
  lemma ItemsWithoutRowSpec(items: seq<ItemInput>, rows: seq<ItemRow>)
    ensures forall item ::
      multiset(ItemsWithoutRow(items, StoredPairs(rows)))[item] ==
      if Pair(item) in StoredPairs(rows) then 0 else multiset(items)[item]
    ensures forall item :: item in ItemsWithoutRow(items, StoredPairs(rows)) <==>
      item in items && !exists i :: 0 <= i < |rows| && rows[i].orderId == item.orderId && rows[i].productId == Some(item.productId)
  {
    WhereCount(items, Pair, StoredPairs(rows), false);
    StoredPairsSpec(rows);
  }

  /** The row written for an item: its price is the product's price from
      `productPriceMap`, or 0 when the map has none. */
  function NewItemRow(item: ItemInput, prices: map<int, int>): ItemRow {
    ItemRow(item.orderId, Some(item.productId), item.quantity,
            if item.productId in prices then prices[item.productId] else 0)
  }

  function NewItemRows(items: seq<ItemInput>, prices: map<int, int>): (rows: seq<ItemRow>)
    ensures |rows| == |items| && forall i :: 0 <= i < |items| ==> rows[i] == NewItemRow(items[i], prices)
  {
    MapSeq(items, item => NewItemRow(item, prices))
  }

  lemma NewItemRowsAppend(a: seq<ItemInput>, b: seq<ItemInput>, prices: map<int, int>)
    ensures NewItemRows(a + b, prices) == NewItemRows(a, prices) + NewItemRows(b, prices)
  {
  }

  /** Every item names a stored order and a stored product. */
  predicate ReferencesKnown(orders: map<int, Order>, products: map<int, Product>, items: seq<ItemInput>) {
    forall item :: item in items ==> item.orderId in orders && item.productId in products
  }

  /** `createOrderItems(tx, items, productPriceMap)`: `createMany` per batch. */
  method CreateOrderItems(tx: Database, items: seq<ItemInput>, prices: map<int, int>, batchSetting: nat)
    returns (ok: bool)
    modifies tx`items
    ensures ok == ReferencesKnown(tx.orders, tx.products, items)
    ensures ok ==> tx.items == old(tx.items) + NewItemRows(items, prices)
  {
    ok := true;
    if |items| == 0 {
      return;
    }
    var chunks := Chunk(items, BatchSize(batchSetting));
    for i := 0 to |chunks|
      invariant tx.items == old(tx.items) + NewItemRows(Flatten(chunks[..i]), prices)
      invariant ReferencesKnown(tx.orders, tx.products, Flatten(chunks[..i]))
    {
      ReferencesKnownChunk(tx.orders, tx.products, chunks, i);
      if !ReferencesKnown(tx.orders, tx.products, chunks[i]) {
        return false;
      }
      FlattenSnoc(chunks, i);
      NewItemRowsAppend(Flatten(chunks[..i]), chunks[i], prices);
      AppendAssoc(old(tx.items), NewItemRows(Flatten(chunks[..i]), prices), NewItemRows(chunks[i], prices));
      tx.items := tx.items + NewItemRows(chunks[i], prices);
    }
    assert chunks[..|chunks|] == chunks;
  }

  /** The items of the first `i + 1` chunks reference stored rows exactly when
      those of the first `i` and of chunk `i` do; an unknown reference in
      chunk `i` is one of the whole input. */
  lemma ReferencesKnownChunk(orders: map<int, Order>, products: map<int, Product>,
                             chunks: seq<seq<ItemInput>>, i: nat)
    requires i < |chunks|
    ensures ReferencesKnown(orders, products, Flatten(chunks[..i + 1])) <==>
      ReferencesKnown(orders, products, Flatten(chunks[..i])) && ReferencesKnown(orders, products, chunks[i])
    ensures !ReferencesKnown(orders, products, chunks[i]) ==> !ReferencesKnown(orders, products, Flatten(chunks))
  {
    FlattenSnoc(chunks, i);
    if !ReferencesKnown(orders, products, chunks[i]) {
      var item: ItemInput :| item in chunks[i] && !(item.orderId in orders && item.productId in products);
      FlattenContains(chunks, i, item);
    }
  }

  /** Creating items appends one row per input: afterwards the stored pairs
      are the old ones plus the inputs' pairs, and each new row carries its
      product's price from the map, or 0. */
  lemma CreateOrderItemsSpec(rows: seq<ItemRow>, items: seq<ItemInput>, prices: map<int, int>)
    ensures StoredPairs(rows + NewItemRows(items, prices)) == StoredPairs(rows) + set item | item in items :: Pair(item)
    ensures forall i :: 0 <= i < |items| ==>
      (rows + NewItemRows(items, prices))[|rows| + i].price ==
        if items[i].productId in prices then prices[items[i].productId] else 0
  {
    var added := NewItemRows(items, prices);
    StoredPairsAppend(rows, added);
    StoredPairsSpec(added);
    forall p | p in set item | item in items :: Pair(item) ensures p in StoredPairs(added) {
      var item :| item in items && Pair(item) == p;
      var i :| 0 <= i < |items| && items[i] == item;
      assert added[i].orderId == p.0 && added[i].productId == Some(p.1);
    }
    forall p | p in StoredPairs(added) ensures p in set item | item in items :: Pair(item) {
      var i :| 0 <= i < |added| && added[i].orderId == p.0 && added[i].productId == Some(p.1);
      assert items[i] in items && Pair(items[i]) == p;
    }
  }

  /** Classifying and then creating leaves a stored item for every input
      pair, and writes nothing for an input whose pair was stored. */
  lemma GroupThenCreate(rows: seq<ItemRow>, items: seq<ItemInput>, prices: map<int, int>)
    ensures var created := ItemsWithoutRow(items, StoredPairs(rows));
      && (forall item :: item in items ==> Pair(item) in StoredPairs(rows + NewItemRows(created, prices)))
      && (forall item :: item in created ==> Pair(item) !in StoredPairs(rows))
  {
    var created := ItemsWithoutRow(items, StoredPairs(rows));
    WhereCount(items, Pair, StoredPairs(rows), false);
    CreateOrderItemsSpec(rows, created, prices);
    forall item | item in items && Pair(item) !in StoredPairs(rows)
      ensures item in created
    {
      assert multiset(created)[item] == multiset(items)[item] > 0;
    }
    forall item | item in created ensures Pair(item) !in StoredPairs(rows) {
      assert multiset(created)[item] > 0;
    }
  }
}
