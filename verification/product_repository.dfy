/** Product writes of the sync jobs (lib/repositories/productRepository.ts). */
module ProductRepository {
  import opened Collections
  import opened Text
  import opened Batching
  import opened Tables
  import opened Existence
  import opened Snapshots
  import opened Store

  /** The stored row for a feed record: every field but `product_id` and
      `reviews`, under the id `product_id`. */
  function ProductRow(p: ProductResponse): (int, Product) {
    (p.productId, Product(p.name, p.description, p.price, p.image, p.brand, p.category,
                          Listed(p.unit, p.discount, p.availability, p.rating)))
  }

  function ProductRows(products: seq<ProductResponse>): seq<(int, Product)> {
    MapSeq(products, ProductRow)
  }

  function ProductIds(products: seq<ProductResponse>): (ids: seq<int>)
    ensures |ids| == |products| && forall i :: 0 <= i < |products| ==> ids[i] == products[i].productId
  {
    KeysOf(ProductRows(products))
  }

  /** `groupProductsByExistence(productIds)`, over the product table. */
  function GroupProductsByExistence(products: map<int, Product>, productIds: seq<int>): Grouping {
    GroupByExistence(products.Keys, productIds)
  }

  /** `createProducts(tx, products)`: `createMany` per batch, without
      `skipDuplicates`; an id already stored or repeated fails the write. */
  method CreateProducts(tx: Database, products: seq<ProductResponse>, batchSetting: nat) returns (ok: bool)
    modifies tx`products
    ensures ok == Insert(old(tx.products), ProductRows(products)).Some?
    ensures ok ==> tx.products == Insert(old(tx.products), ProductRows(products)).value
  {
    ok := true;
    if |products| == 0 {
      return;
    }
    var chunks := Chunk(products, BatchSize(batchSetting));
    for i := 0 to |chunks|
      invariant Insert(old(tx.products), ProductRows(Flatten(chunks[..i]))) == Some(tx.products)
    {
      InsertChunk(old(tx.products), chunks, i, ProductRow);
      var written := Insert(tx.products, ProductRows(chunks[i]));
      if written.None? {
        InsertFailsForAll(old(tx.products), chunks, i, ProductRow);
        ok := false;
        return;
      }
      tx.products := written.value;
    }
    assert chunks[..|chunks|] == chunks;
  }

  /** `createProducts` succeeds exactly when no input id is stored or
      repeated. */
  lemma CreateProductsSucceeds(stored: map<int, Product>, products: seq<ProductResponse>)
    ensures Insert(stored, ProductRows(products)).Some? <==>
      && (forall i :: 0 <= i < |products| ==> products[i].productId !in stored)
      && (forall i, j :: 0 <= i < j < |products| ==> products[i].productId != products[j].productId)
  {
    var rows := ProductRows(products);
    assert KeysOf(rows) == ProductIds(products);
    InsertSpec(stored, rows);
  }

  /** A successful creation stores every input under its id and leaves the
      other products as they were. */
  lemma CreateProductsSpec(stored: map<int, Product>, products: seq<ProductResponse>)
    requires Insert(stored, ProductRows(products)).Some?
    ensures var r := Insert(stored, ProductRows(products)).value;
      && (forall id :: id in r <==> id in stored || id in ProductIds(products))
      && (forall id :: id in stored ==> r[id] == stored[id])
      && (forall i :: 0 <= i < |products| ==> r[products[i].productId] == ProductRow(products[i]).1)
  {
    var rows := ProductRows(products);
    assert KeysOf(rows) == ProductIds(products);
    InsertSpec(stored, rows);
    LastValuesKeys(rows);
    InsertStoresRows(stored, rows);
  }

  /** `updateProducts(tx, products)`: batch by batch, one `update` per
      product. */
  method UpdateProducts(tx: Database, products: seq<ProductResponse>, batchSetting: nat) returns (ok: bool)
    modifies tx`products
    ensures ok == Update(old(tx.products), ProductRows(products)).Some?
    ensures ok ==> tx.products == Update(old(tx.products), ProductRows(products)).value
  {
    ok := true;
    if |products| == 0 {
      return;
    }
    var chunks := Chunk(products, BatchSize(batchSetting));
    for i := 0 to |chunks|
      invariant Update(old(tx.products), ProductRows(Flatten(chunks[..i]))) == Some(tx.products)
    {
      UpdateChunk(old(tx.products), chunks, i, ProductRow);
      ok := UpdateBatch(tx, chunks[i]);
      if !ok {
        UpdateFailsForAll(old(tx.products), chunks, i);
        return;
      }
    }
    assert chunks[..|chunks|] == chunks;
  }

  /** The updates of one batch (issued together and awaited together; here
      one after the other). */
  method UpdateBatch(tx: Database, batch: seq<ProductResponse>) returns (ok: bool)
    modifies tx`products
    ensures ok == Update(old(tx.products), ProductRows(batch)).Some?
    ensures ok ==> tx.products == Update(old(tx.products), ProductRows(batch)).value
  {
    for j := 0 to |batch|
      invariant Update(old(tx.products), ProductRows(batch[..j])) == Some(tx.products)
    {
      var p := batch[j];
      assert batch[..j + 1] == batch[..j] + [p];
      MapSeqAppend(batch[..j], [p], ProductRow);
      UpdateAppend(old(tx.products), ProductRows(batch[..j]), [ProductRow(p)]);
      if p.productId !in tx.products {
        assert batch == batch[..j + 1] + batch[j + 1..];
        MapSeqAppend(batch[..j + 1], batch[j + 1..], ProductRow);
        UpdateAppend(old(tx.products), ProductRows(batch[..j + 1]), ProductRows(batch[j + 1..]));
        return false;
      }
      tx.products := tx.products[p.productId := ProductRow(p).1];
    }
    assert batch[..|batch|] == batch;
    return true;
  }

  /** A failing update batch fails the updates of all products. */
  lemma UpdateFailsForAll(stored: map<int, Product>, chunks: seq<seq<ProductResponse>>, i: nat)
    requires i < |chunks|
    requires Update(stored, ProductRows(Flatten(chunks[..i + 1]))).None?
    ensures Update(stored, ProductRows(Flatten(chunks))).None?
  {
    assert chunks == chunks[..i + 1] + chunks[i + 1..];
    FlattenAppend(chunks[..i + 1], chunks[i + 1..]);
    MapSeqAppend(Flatten(chunks[..i + 1]), Flatten(chunks[i + 1..]), ProductRow);
    UpdateAppend(stored, ProductRows(Flatten(chunks[..i + 1])), ProductRows(Flatten(chunks[i + 1..])));
  }

  /** `updateProducts` succeeds exactly when every input id is stored. */
  lemma UpdateProductsSucceeds(stored: map<int, Product>, products: seq<ProductResponse>)
    ensures Update(stored, ProductRows(products)).Some? <==>
      forall i :: 0 <= i < |products| ==> products[i].productId in stored
  {
    UpdateSpec(stored, ProductRows(products));
  }

  /** Successful updates keep the set of products, leave products not in the
      input as they were, and give each input id the fields of its last
      occurrence. */
  lemma UpdateProductsSpec(stored: map<int, Product>, products: seq<ProductResponse>)
    requires Update(stored, ProductRows(products)).Some?
    ensures var r := Update(stored, ProductRows(products)).value;
      && r.Keys == stored.Keys
      && (forall id :: id in stored && id !in ProductIds(products) ==> r[id] == stored[id])
      && (forall i :: (0 <= i < |products| &&
            forall j :: i < j < |products| ==> products[j].productId != products[i].productId) ==>
            products[i].productId in r && r[products[i].productId] == ProductRow(products[i]).1)
  {
    var rows := ProductRows(products);
    assert KeysOf(rows) == ProductIds(products);
    UpdateSpec(stored, rows);
    LastValuesKeys(rows);
    UpdateStoresLastRows(stored, rows);
  }

  /** The placeholder written for an id an order refers to but the store
      does not have. */
  function Placeholder(id: int): Product {
    Product("Product " + NumberToString(id), "Auto-created product for order sync", 0, "",
            "Unknown", "Unknown", SchemaDefaults)
  }

  function PlaceholderRow(id: int): (int, Product) {
    (id, Placeholder(id))
  }

  /** The product table after `ensureProductsExist(tx, productIds)`. */
  function EnsuredProducts(products: map<int, Product>, productIds: seq<int>): map<int, Product> {
    SkipInsert(products, MapSeq(GroupProductsByExistence(products, productIds).missing, PlaceholderRow))
  }

  /** The id to price map read back for the requested ids. */
  function PriceMap(products: map<int, Product>, productIds: seq<int>): map<int, int> {
    map id | id in productIds && id in products :: products[id].price
  }

  /** `ensureProductsExist(tx, productIds)`: insert a placeholder for each
      missing id (batch by batch, skipping duplicates), then read back the
      price of every requested product. */
  method EnsureProductsExist(tx: Database, productIds: seq<int>, batchSetting: nat)
    returns (priceMap: map<int, int>)
    modifies tx`products
    ensures tx.products == EnsuredProducts(old(tx.products), productIds)
    ensures forall id :: id in productIds ==> id in tx.products
    ensures forall id :: id in old(tx.products) ==> id in tx.products && tx.products[id] == old(tx.products)[id]
    ensures forall id :: id in priceMap <==> id in productIds
    ensures forall id :: id in priceMap ==> priceMap[id] == tx.products[id].price
    ensures priceMap == PriceMap(tx.products, productIds)
  {
    var missing := GroupProductsByExistence(tx.products, productIds).missing;
    if |missing| > 0 {
      InsertPlaceholders(tx, missing, batchSetting);
    }
    EnsureProductsExistSpec(old(tx.products), productIds);
    priceMap := PriceMap(tx.products, productIds);
  }

  /** The placeholder `createMany` with `skipDuplicates`, batch by batch. */
  method InsertPlaceholders(tx: Database, missing: seq<int>, batchSetting: nat)
    requires |missing| > 0
    modifies tx`products
    ensures tx.products == SkipInsert(old(tx.products), MapSeq(missing, PlaceholderRow))
  {
    var chunks := Chunk(missing, BatchSize(batchSetting));
    for i := 0 to |chunks|
      invariant tx.products == SkipInsert(old(tx.products), MapSeq(Flatten(chunks[..i]), PlaceholderRow))
    {
      SkipInsertChunk(old(tx.products), chunks, i, PlaceholderRow);
      tx.products := SkipInsert(tx.products, MapSeq(chunks[i], PlaceholderRow));
    }
    assert chunks[..|chunks|] == chunks;
  }

  /** After `ensureProductsExist` every requested id is a product, products
      that existed are unchanged, and the products it added are exactly the
      requested ids that were missing, each a placeholder. */
  lemma EnsureProductsExistSpec(stored: map<int, Product>, productIds: seq<int>)
    ensures var r := EnsuredProducts(stored, productIds);
      && (forall id :: id in r <==> id in stored || id in productIds)
      && (forall id :: id in stored ==> r[id] == stored[id])
      && (forall id :: id in r && id !in stored ==> r[id] == Placeholder(id))
  {
    var g := GroupProductsByExistence(stored, productIds);
    var rows := MapSeq(g.missing, PlaceholderRow);
    GroupByExistenceSpec(stored.Keys, productIds);
    PlaceholderRows(g.missing);
    SkipInsertSpec(stored, rows);
  }

  /** The placeholder rows for `ids` have exactly those keys, each with its
      placeholder. */
  lemma PlaceholderRows(ids: seq<int>)
    ensures forall id :: id in KeysOf(MapSeq(ids, PlaceholderRow)) <==> id in ids
    ensures forall row :: row in MapSeq(ids, PlaceholderRow) ==> row.1 == Placeholder(row.0)
  {
    var rows := MapSeq(ids, PlaceholderRow);
    forall id ensures id in KeysOf(rows) <==> id in ids {
      if id in ids {
        var k :| 0 <= k < |ids| && ids[k] == id;
        assert KeysOf(rows)[k] == id;
      }
    }
  }

  /** The returned map has exactly the requested ids as keys; each value is
      the price the product had, or 0 for a placeholder. */
  lemma PriceMapSpec(stored: map<int, Product>, productIds: seq<int>)
    ensures var prices := PriceMap(EnsuredProducts(stored, productIds), productIds);
      && (forall id :: id in prices <==> id in productIds)
      && (forall id :: id in prices ==> prices[id] == if id in stored then stored[id].price else 0)
  {
    EnsureProductsExistSpec(stored, productIds);
  }

  /** A second `ensureProductsExist` with the same ids writes nothing, so it
      returns the same map. */
  lemma EnsureProductsExistIdempotent(stored: map<int, Product>, productIds: seq<int>)
    ensures EnsuredProducts(EnsuredProducts(stored, productIds), productIds) == EnsuredProducts(stored, productIds)
  {
    var r := EnsuredProducts(stored, productIds);
    EnsureProductsExistSpec(stored, productIds);
    GroupByExistenceSpec(r.Keys, productIds);
  }
}
