# Magpie sync reconciliation engine, modelled in Dafny

Magpie's scheduled jobs keep the local database in line with an external shop
feed.

- `syncOrder` (trigger/sync_order.ts) takes a full snapshot of orders and runs
  two transactions:
  - **phase A** creates the users the orders reference (skipping existing
    ones), creates the orders whose id is not stored, and updates the others;
  - **phase B** (`processOrderItems`) makes sure every product referenced by
    an item exists, creating a placeholder product where it does not, and
    creates the items whose `(order_id, product_id)` pair has no row yet.
    Each new item is priced from the products' current prices.
- `syncProduct` (trigger/sync_product.ts) does the same for a snapshot of
  products:
  - **phase 1** creates the reviewers and creates or updates the products;
  - **phase 2** creates the reviews whose `(user_id, product_id)` pair has no
    review yet.
- Every bulk write goes through `batchProcess`, which splits its input into
  chunks of `BATCH_SIZE` rows (default 50) and handles them one after another.
- Two dashboard formatters, `formatUserId` and `formatSKU`, render ids as
  `U-007` and stock codes as `AC-EL-042`.

The model is organised like this:

- **Store** (`store.dfy`): the database is a class `Store.Database`.
  - Users, products and orders are maps keyed by their external id.
  - Order items and reviews are sequences of rows.
  - `Value()` reads the whole store as a `Db` value.
  - `Restore` rolls a failed transaction back.
- **Repositories**: each one is a method that changes its table in place,
  chunk by chunk.
  - Its `ensures` ties the new table to a pure function of the old one:
    `Tables.SkipInsert` for `createMany({skipDuplicates: true})`,
    `Tables.Insert` for `createMany` without it, and `Tables.Update` for the
    per-row updates of a batch.
  - Lemmas then prove what the source promises about those functions.
- **Jobs**: `SyncOrder.Run` and `SyncProduct.Run` are methods.
  - Each is proved equal to a pure `Sync` function: phase by phase, the
    outcome and the final store.
  - Lemmas about `Sync` carry the job-level properties: when each phase
    commits, what it stores, idempotence, and preservation of referential
    integrity (`Store.Consistent`).
- **Formatters**: the formatters are pure functions. JavaScript's
  `toString`, `padStart`, `parseInt` and `toUpperCase` are modelled in
  `text.dfy` and `formatters.dfy`.

Where the behaviour of the code differs from what its documentation or its
tests describe, the model follows the code:

- **Items are create-only.** `processOrderItems` never updates an existing
  item row (trigger/sync_order.ts:52-56). The tests at
  trigger/sync_order.test.ts:246-270 and 296-325 expect the quantity of an
  existing item to change. Those tests are stale: they import
  `saveNewOrders`, `updateExistingOrders` and `saveOrderItems`
  (trigger/sync_order.test.ts:4), which trigger/sync_order.ts does not
  export; it exports only `processOrderItems` and `syncOrder`.
- **A repeated new id fails the phase.** `createOrders` and `createProducts`
  call `createMany` without `skipDuplicates`. So when a snapshot repeats an
  id that is not yet stored, that call fails and the phase rolls back.
- **Stored ids are updated one by one.** A repeated id that is already stored
  is updated once per occurrence, and the last occurrence wins.
- **Repeated item pairs all get rows.** A pair repeated within one snapshot
  is created once per occurrence. `groupOrderItemsByExistence` only checks
  against stored rows.
- **Reviews are never updated.** There is no update path, and existing
  reviews are left as they are.

## Model

| member | source | states |
|---|---|---|
| Batching.BatchSize | lib/repositories/userRepository.ts:48 | the batch size is always positive, and a positive `BATCH_SIZE` is used as given (0 or unset falls back to the default) |
| Batching.Chunk | lib/repositories/baseRepository.ts:17 | the chunks, put together in order, give back the items; each chunk is non-empty and at most `size` long; every chunk but the last is full |
| Batching.BatchProcess | lib/repositories/baseRepository.ts:12-21 | one processor call per chunk of `chunk(items, batchSize)`, in order: call `i` receives chunk `i`, with index `i` and the same total (the number of chunks); each batch is non-empty and at most `batchSize`; the batches put together give back the items |
| Text.Digits | lib/utils/formatters.ts:4 | `toString` of a natural number is a non-empty run of decimal digits without a leading zero |
| Text.DigitsRoundTrip | lib/utils/formatters.ts:4 | reading the decimal digits of `n` gives back `n` |
| Text.DigitsValueLeadingZeros | lib/utils/formatters.ts:4 | zeros added on the left do not change the value of a digit string |
| Text.DigitsAtLeastThree | lib/utils/formatters.ts:4 | a number has at least three digits exactly when it is at least 100 |
| Text.PadStart | lib/utils/formatters.ts:4 | `padStart` never truncates: the result has length max(len, width), ends with the input and is filled on the left |
| Text.TrimStart | lib/utils/formatters.ts:2 | `parseInt` skips leading white space: the result is a suffix of the input; only white space is removed, and all of it, so the result does not start with white space |
| Text.LeadingDigits | lib/utils/formatters.ts:2 | `parseInt` reads the longest prefix of digits |
| Text.ParseIntRoundTrip | lib/utils/formatters.ts:2 | `parseInt(n.toString())` gives back `n`, negative numbers included |
| Text.ParseDigits | lib/utils/formatters.ts:2 | a digit string parses to its value, and with a leading minus to its negation |
| Text.NumberToString | lib/utils/formatters.ts:4 | `n.toString()` of an integer: a minus sign for a negative number, then the decimal digits of its magnitude |
| Text.ParseInt | lib/utils/formatters.ts:2 | `parseInt(s)`: skip leading white space, take an optional sign, read the longest run of digits; no digit there gives NaN (`None`) |
| Text.ParseIntNone | lib/utils/formatters.ts:2-3 | `parseInt` gives NaN exactly when, after the leading white space and an optional sign, the next character is missing or is not a digit |
| Text.NoDigitNoNumber | lib/utils/formatters.ts:2-3 | a string without digits does not parse (NaN) |
| Formatters.PaddedId | lib/utils/formatters.ts:4 | the padded id is at least three characters long |
| Formatters.FormatUserId | lib/utils/formatters.ts:1-5 | every user id display starts with "U-" |
| Formatters.FormatUserIdNonNegative | lib/utils/formatters.ts:1-5 | for id >= 0: "U-" then at least three digits that read back as the id; ids of three or more digits are not changed by the padding |
| Formatters.PaddedDigits | lib/utils/formatters.ts:10 | for id >= 0, `idCode` is all digits and reads back as the id |
| Formatters.FormatUserIdUnparsable | lib/utils/formatters.ts:2-3 | any string with no digit right after its leading white space and optional sign (so "abc1", "-" and "") is shown as "U-" followed by the string itself |
| Formatters.FormatUserIdParsable | lib/utils/formatters.ts:2-4 | any string with a digit right after its leading white space and optional sign parses, and is shown as "U-" followed by the padded parsed number |
| Formatters.FormatUserIdTextualAgrees | lib/utils/formatters.ts:1-4 | the string form of a number formats the same as the number |
| Formatters.Code | lib/utils/formatters.ts:8-9 | the name, or "XX" when it is empty, cut to its first two characters (fewer when shorter) and upper-cased |
| Formatters.CodeSpec | lib/utils/formatters.ts:8-9 | an empty brand or category gives "XX"; otherwise its first min(2, length) characters, upper-cased; no code holds a lower-case letter |
| Formatters.FormatSKU | lib/utils/formatters.ts:7-12 | the brand code, the category code and the padded id, joined by dashes |
| Formatters.FormatSKUParts | lib/utils/formatters.ts:7-12 | the SKU is brand code, '-', category code, '-', then at least three digits that read back as the id |
| Formatters.JoinParts | lib/utils/formatters.ts:11 | the dash-joined string splits back into its three parts |
| Collections.DistinctSpec | lib/repositories/productRepository.ts:70 | `[...new Set(ids)]` holds each input id exactly once and nothing else |
| Collections.DistinctPrefix | lib/repositories/productRepository.ts:70 | de-duplication keeps first-appearance order: a prefix of the input gives a prefix of the result |
| Collections.FlatMapMember | trigger/sync_order.ts:30-38 | an element of the flattened list is an element of one part, and every element of every part is in it |
| Collections.WhereCount | trigger/sync_order.ts:85-86 | `filter` keeps every element that passes, as often as it occurs, and drops every other one |
| Collections.WherePartition | trigger/sync_order.ts:85-86 | a filter and its negation together hold every element exactly as often as the input |
| Collections.WhereNone | trigger/sync_order.ts:85 | a filter every element fails returns an empty list |
| Tables.SkipInsert | lib/repositories/userRepository.ts:50-57 | `createMany` with `skipDuplicates`: rows are taken in order, and a row whose key is stored or came earlier is skipped |
| Tables.SkipInsertSpec | lib/repositories/userRepository.ts:50-57 | after `createMany` with `skipDuplicates`, every key is stored, stored rows keep their values, and each new value comes from an input row |
| Tables.SkipInsertAppend | lib/repositories/userRepository.ts:50-57 | skipping inserts of two batches in turn equal one skipping insert of both |
| Tables.SkipInsertPresent | lib/repositories/userRepository.ts:56 | a skipping insert of rows whose keys are all stored writes nothing |
| Tables.SkipInsertIdempotent | lib/repositories/userRepository.ts:50-57 | the same skipping insert a second time changes nothing |
| Tables.Insert | lib/repositories/orderRepository.ts:81-89 | `createMany` without `skipDuplicates`: rows are taken in order, and a key that is stored or came earlier fails the whole write |
| Tables.InsertSpec | lib/repositories/orderRepository.ts:81-89 | `createMany` without `skipDuplicates` succeeds exactly when the keys are distinct and none is stored; it then adds each row under its key and keeps the rest |
| Tables.InsertAppend | lib/repositories/orderRepository.ts:80-91 | inserting two batches in turn equals inserting both at once, and a failed first batch fails the whole |
| Tables.Update | lib/repositories/orderRepository.ts:105-118 | one `update` per row, in order: the row's key gets its value, and a key that is not stored fails the write |
| Tables.UpdateSpec | lib/repositories/orderRepository.ts:105-118 | the per-row updates succeed exactly when every key is stored; each key then holds the value of its last row and the key set is unchanged |
| Tables.UpdateAppend | lib/repositories/orderRepository.ts:105-120 | updating two batches in turn equals updating both at once |
| Tables.UpdateIdempotent | lib/repositories/orderRepository.ts:105-118 | repeating a successful update changes nothing |
| Tables.LastValuesKeys | lib/repositories/orderRepository.ts:105-118 | the last-wins map has exactly the rows' keys, each with the value of one of those rows |
| Tables.LastValuesOfLast | lib/repositories/orderRepository.ts:105-118 | last row wins: a row with no later row for its key gives that key its value |
| Tables.InsertStoresRows | lib/repositories/orderRepository.ts:81-89 | after a successful insert every input row is stored under its key |
| Tables.UpdateStoresLastRows | lib/repositories/orderRepository.ts:105-118 | after successful updates the last row for each key is stored |
| Tables.LastValuesWhere | trigger/sync_order.ts:85-86 | filtering rows by key keeps the last-wins value of each key let through |
| Tables.RowsWhereKeys | trigger/sync_order.ts:85-86 | the filtered rows have exactly the input keys on their side of the filter |
| Tables.RowsOutsideDistinct | trigger/sync_order.ts:85-94 | the rows outside a key set have distinct keys exactly when every repeated key is inside it |
| Tables.LastValuesPartition | trigger/sync_order.ts:85-86 | the last-wins maps of both sides of a filter make up the last-wins map of all rows |
| Tables.InsertOutside | trigger/sync_order.ts:85-94 | inserting the rows whose key is not stored succeeds exactly when every repeated key is stored |
| Tables.InsertThenUpdate | trigger/sync_order.ts:94-95 | creating the unstored rows and then updating the stored ones leaves each snapshot key with its last row's value |
| Store.Database.Restore | trigger/sync_order.ts:89-96 | a failed transaction leaves the store exactly as it was when it started |
| Existence.GroupByExistence | lib/repositories/productRepository.ts:69-80 | de-duplicate the ids, split off the stored ones, and keep the rest in their first-appearance order |
| Existence.GroupByExistenceSpec | lib/repositories/productRepository.ts:69-80 | `existing` is the input ids that are stored; `missing` is the other input ids, each once, in order of first appearance, disjoint from `existing`; `groupOrdersByExistence` (lib/repositories/orderRepository.ts:56-67) is the same code for order ids |
| Existence.UnstoredSpec | lib/repositories/productRepository.ts:77 | filtering the unique ids keeps them distinct, keeps exactly the unstored ones and keeps their first-appearance order |
| Existence.DistinctFirstBefore | lib/repositories/productRepository.ts:70 | the unique ids come in order of first appearance in the input |
| Existence.WhereRows | trigger/sync_order.ts:85-86 | filtering records and then mapping them to rows equals filtering the rows by key |
| UserRepository.TemplatedUsers | trigger/sync_order.ts:17-22 | one templated user per id, in the same order, carrying that id |
| UserRepository.CreateUsers | lib/repositories/userRepository.ts:42-60 | the user table after the call is the skipping insert of the input users into the old table |
| UserRepository.CreateUsersSpec | lib/repositories/userRepository.ts:50-57 | every input id is a user afterwards, existing users keep their fields, and every new user comes from the input |
| UserRepository.CreateUsersIdempotent | lib/repositories/userRepository.ts:50-57 | calling `createUsers` twice with the same input leaves the table as after the first call |
| UserRepository.CreateUsersNothingNew | lib/repositories/userRepository.ts:56 | input users that all exist change nothing |
| UserRepository.ReferencedUsersSpec | trigger/sync_order.ts:13-26 | one entry per distinct referenced id and no other, each named "User {id}" with email "user{id}@example.com" |
| UserRepository.ReferencedUsersStored | trigger/sync_order.ts:91 | after creating the referenced users every referenced id is a user, and existing users are unchanged |
| UserRepository.ReferencedUsersPresent | trigger/sync_order.ts:91 | when every referenced id is already a user, nothing is written |
| UserRepository.ReferencedUsersSnoc | trigger/sync_order.ts:15-24 | a new id adds its templated user at the end; a seen id adds nothing |
| ProductRepository.ProductIds | trigger/sync_product.ts:67 | one id per product, in order |
| ProductRepository.CreateProducts | lib/repositories/productRepository.ts:85-107 | the call succeeds exactly when the insert without `skipDuplicates` does, and then the product table is that insert's result |
| ProductRepository.CreateProductsSucceeds | lib/repositories/productRepository.ts:94-104 | the insert succeeds exactly when no product id is stored and none is repeated |
| ProductRepository.CreateProductsSpec | lib/repositories/productRepository.ts:94-104 | after a successful insert the keys are the old ones plus the input ids, stored products are kept, and each product is stored under its id with its own fields |
| ProductRepository.UpdateProducts | lib/repositories/productRepository.ts:112-136 | the call succeeds exactly when every update does, and the table is then the updated one |
| ProductRepository.UpdateBatch | lib/repositories/productRepository.ts:120-133 | one batch's updates, in order, fail as soon as an id is not stored |
| ProductRepository.UpdateFailsForAll | lib/repositories/productRepository.ts:120-135 | a failing batch makes the whole call fail |
| ProductRepository.UpdateProductsSucceeds | lib/repositories/productRepository.ts:120-133 | updates succeed exactly when every id is stored |
| ProductRepository.UpdateProductsSpec | lib/repositories/productRepository.ts:120-133 | after successful updates the key set is unchanged, unnamed products are untouched, and each id holds the fields of its last input row |
| ProductRepository.Placeholder | lib/repositories/productRepository.ts:154-162 | the placeholder product for an id: name "Product {id}", an auto-created description, price 0, an empty image, brand and category "Unknown" |
| ProductRepository.EnsuredProducts | lib/repositories/productRepository.ts:142-168 | the product table after `ensureProductsExist`: the placeholders of the missing ids inserted with `skipDuplicates` |
| ProductRepository.PriceMap | lib/repositories/productRepository.ts:170-176 | the price read back: each requested id that is stored, mapped to its price |
| ProductRepository.EnsureProductsExist | lib/repositories/productRepository.ts:142-177 | afterwards every requested id is a product; existing products are unchanged; the returned map has exactly the requested ids, each with its stored price |
| ProductRepository.InsertPlaceholders | lib/repositories/productRepository.ts:149-168 | the placeholders of the missing ids are inserted batch by batch, skipping duplicates |
| ProductRepository.EnsureProductsExistSpec | lib/repositories/productRepository.ts:146-168 | the products afterwards are the old ones plus the requested ids; the old ones are unchanged; every new one is the fixed placeholder ("Product {id}", auto-created description, price 0, no image, brand and category "Unknown") |
| ProductRepository.PriceMapSpec | lib/repositories/productRepository.ts:170-176 | the price map's keys are exactly the requested ids; a stored product gives its own price, a new placeholder 0 |
| ProductRepository.EnsureProductsExistIdempotent | lib/repositories/productRepository.ts:146-176 | a second call with the same ids writes nothing |
| OrderRepository.OrderIds | trigger/sync_order.ts:82 | one id per order, in order |
| OrderRepository.CreateOrders | lib/repositories/orderRepository.ts:72-92 | the call succeeds exactly when the insert does and every order's user exists; the table is then the insert's result |
| OrderRepository.CreateFailsForAll | lib/repositories/orderRepository.ts:80-91 | a failing batch makes the whole call fail |
| OrderRepository.CreateOrdersSucceeds | lib/repositories/orderRepository.ts:81-89 | creation succeeds exactly when no id is stored or repeated and every order's user exists |
| OrderRepository.CreateOrdersSpec | lib/repositories/orderRepository.ts:81-89 | after a successful insert the keys are the old ones plus the input ids, stored orders are kept, and each order is stored with its own user, total and status |
| OrderRepository.UpdateOrders | lib/repositories/orderRepository.ts:97-121 | the call succeeds exactly when every update does, and the table is then the updated one |
| OrderRepository.UpdateBatch | lib/repositories/orderRepository.ts:105-118 | one batch's updates fail as soon as an id is not stored or a user is unknown |
| OrderRepository.UpdateFailsForAll | lib/repositories/orderRepository.ts:105-120 | a failing batch makes the whole call fail |
| OrderRepository.UpdateOrdersSucceeds | lib/repositories/orderRepository.ts:107-117 | updates succeed exactly when every id is stored and every order's user exists |
| OrderRepository.UpdateOrdersSpec | lib/repositories/orderRepository.ts:107-117 | after successful updates the key set is unchanged, other orders are untouched, and each id holds its last input's user, total and status |
| OrderItemRepository.StoredPairsSpec | lib/repositories/orderItemRepository.ts:29-36 | the lookup holds exactly the pairs of stored items that have a product; an item with a null product never matches |
| OrderItemRepository.StoredPairsAppend | lib/repositories/orderItemRepository.ts:31-36 | the lookup of two runs of rows is the union of their lookups |
| OrderItemRepository.GroupOrderItemsByExistence | lib/repositories/orderItemRepository.ts:16-49 | only reads; returns the input items whose pair has no stored row, in input order |
| OrderItemRepository.ItemsWithoutRowSpec | lib/repositories/orderItemRepository.ts:38-48 | an item is returned exactly when no stored row has its order and product; unstored items keep every repetition |
| OrderItemRepository.NewItemRows | lib/repositories/orderItemRepository.ts:65-71 | one row per input item, with its order, product and quantity, priced from the map or 0 when absent |
| OrderItemRepository.CreateOrderItems | lib/repositories/orderItemRepository.ts:54-75 | the call succeeds exactly when every order and product exists; the item rows then gain one new row per input and keep the old ones |
| OrderItemRepository.CreateOrderItemsSpec | lib/repositories/orderItemRepository.ts:63-72 | the new rows add exactly the input pairs to the stored pairs; each new row's price is the map's price, or 0 |
| OrderItemRepository.GroupThenCreate | lib/repositories/orderItemRepository.ts:38-72 | after classifying and creating, every input pair has a row, and no created item's pair was stored before |
| ReviewRepository.GroupReviewsByExistence | lib/repositories/reviewRepository.ts:28-59 | only reads; returns the input reviews whose (user, product) pair has no stored review, in input order |
| ReviewRepository.ReviewsWithoutRowSpec | lib/repositories/reviewRepository.ts:41-58 | a review is returned exactly when no stored review has the same user and product; a review by the same user of another product does not block it; unstored reviews keep every repetition |
| ReviewRepository.InsertReviews | lib/repositories/reviewRepository.ts:73-82 | `createMany` with `skipDuplicates` on reviews: a review whose pair is stored or came earlier is skipped; one that would be added but names an unknown user or product fails the write |
| ReviewRepository.InsertReviewsGrowth | lib/repositories/reviewRepository.ts:72-84 | the old reviews stay as they were, and the stored pairs grow by exactly the input pairs |
| ReviewRepository.InsertReviewsSucceeds | lib/repositories/reviewRepository.ts:73-82 | the insert fails exactly when a review that would be added names an unknown user or product |
| ReviewRepository.InsertReviewsUnique | lib/repositories/reviewRepository.ts:81 | skipping duplicates keeps the (user, product) pairs unique |
| ReviewRepository.InsertReviewsSpec | lib/repositories/reviewRepository.ts:72-84 | all of the above: when it succeeds; that existing reviews are never modified; the new pairs; uniqueness kept; every added row is built from an input review with its user, product, rating and comment |
| ReviewRepository.InsertReviewsAppend | lib/repositories/reviewRepository.ts:72-84 | inserting two batches in turn equals inserting both at once |
| ReviewRepository.CreateReviews | lib/repositories/reviewRepository.ts:64-85 | the call succeeds exactly when the skipping insert does, and the reviews are then its result |
| ReviewRepository.GroupThenCreateReviews | trigger/sync_product.ts:89-92 | with known users and products, classifying then creating succeeds and leaves every input pair stored |
| SyncOrder.ExtractUniqueUsers | trigger/sync_order.ts:13-26 | the loop returns the templated user of each distinct `user_id`, in first-appearance order |
| SyncOrder.ExtractAllOrderItems | trigger/sync_order.ts:28-40 | the nested loops return the flattened items of all orders |
| SyncOrder.AllOrderItemsCount | trigger/sync_order.ts:28-40 | the extracted list has one entry per item of every order: its length is the sum of the orders' item counts |
| SyncOrder.AllOrderItemsSplit | trigger/sync_order.ts:28-40 | order `i`'s items, in their own order and tagged with its id, sit between those of the orders before and after it |
| SyncOrder.AllOrderItemsMember | trigger/sync_order.ts:28-40 | an extracted item is an item of one of the orders, and every item of every order is extracted |
| SyncOrder.SplitOrdersSpec | trigger/sync_order.ts:82-86 | `ordersToCreate` and `ordersToUpdate` partition the snapshot; an order is created exactly when its id is not stored and updated exactly when it is |
| SyncOrder.SplitOrderRows | trigger/sync_order.ts:85-86 | the rows of both halves are the snapshot's rows filtered by the stored ids |
| SyncOrder.SyncedUsersSpec | trigger/sync_order.ts:91 | after `createUsers` every snapshot `user_id` is a user, and existing users are unchanged |
| SyncOrder.SplitUsersKnown | trigger/sync_order.ts:91-95 | because users are created first, no order write can fail on an unknown user |
| SyncOrder.CreateNewOrdersSpec | trigger/sync_order.ts:85-94 | creating the new orders fails exactly when the snapshot repeats an id that is not stored |
| SyncOrder.UpdateAfterCreate | trigger/sync_order.ts:94-95 | after creating the new orders and updating the stored ones, each snapshot id holds its last snapshot row |
| SyncOrder.PhaseA | trigger/sync_order.ts:89-96 | the first transaction: create the referenced users, insert the unstored orders, update the stored ones; `None` when a write fails |
| SyncOrder.PhaseACommits | trigger/sync_order.ts:89-96 | the first transaction commits exactly when every id repeated in the snapshot is already stored |
| SyncOrder.PhaseAResult | trigger/sync_order.ts:89-96 | after phase A every snapshot `user_id` and `order_id` is stored; each order holds its last snapshot row; existing users are unchanged; products, items and reviews are untouched |
| SyncOrder.PhaseAStore | trigger/sync_order.ts:89-96 | a committed phase A is the old store with the referenced users added and every snapshot order written with its last occurrence; nothing else changes |
| SyncOrder.ProcessItems | trigger/sync_order.ts:42-61 | `processOrderItems`: nothing for an empty snapshot; otherwise ensure the products, then append a priced row for each item whose pair has no row; `None` when a write fails |
| SyncOrder.ProcessItemsCommits | trigger/sync_order.ts:46-56 | when every snapshot order is stored, phase B commits |
| SyncOrder.ItemsKnown | trigger/sync_order.ts:46-50 | every extracted item names a stored order and one of the ensured product ids |
| SyncOrder.ProcessItemsStores | trigger/sync_order.ts:42-61 | after phase B every referenced product exists and every snapshot pair has an item row; existing products are unchanged, and new ones are placeholders; existing item rows are kept as they were; users, orders and reviews are untouched |
| SyncOrder.ItemsToCreateMember | trigger/sync_order.ts:52-53 | the items phase B creates are exactly the snapshot items whose (order, product) pair has no row |
| SyncOrder.ProcessItemsNewRows | trigger/sync_order.ts:52-56 | phase B appends one row per item to create, in order, with the item's order, product and quantity, priced at the product's stored price or 0 for a new placeholder |
| SyncOrder.PricedRowOf | lib/repositories/productRepository.ts:170-176 | the price read back for a snapshot item is its product's stored price, or 0 for a placeholder |
| SyncOrder.Sync | trigger/sync_order.ts:89-108 | a whole run: phase A, then phase B only once phase A committed; the outcome says which phase failed, and the store is the last committed one |
| SyncOrder.SyncOutcome | trigger/sync_order.ts:89-108 | phase B has no key or foreign-key failure after phase A committed; phase A fails exactly when the snapshot repeats an unstored order id, and then the store is unchanged |
| SyncOrder.SyncEmpty | trigger/sync_order.ts:43 | an empty snapshot completes and writes nothing |
| SyncOrder.SplitAllStored | trigger/sync_order.ts:85-86 | when every order is stored, nothing is created and every order is updated |
| SyncOrder.PhaseAStable | trigger/sync_order.ts:89-96 | phase A on a store that already holds the snapshot writes nothing |
| SyncOrder.EnsuredProductsPresent | lib/repositories/productRepository.ts:146-168 | when every requested product exists, `ensureProductsExist` writes nothing |
| SyncOrder.ProcessItemsStable | trigger/sync_order.ts:46-56 | phase B writes nothing when every product exists and every pair has a row |
| SyncOrder.SyncIdempotent | trigger/sync_order.ts:67-123 | re-running a completed sync with the same snapshot completes and leaves the store as it was |
| SyncOrder.CompletedRunHolds | trigger/sync_order.ts:67-123 | after a completed run every snapshot user, order, product and item pair is stored, and writing the snapshot's orders again changes nothing |
| SyncOrder.PhaseAConsistent | trigger/sync_order.ts:89-96 | phase A keeps referential integrity: orders name users, items name orders and products, reviews name users and products |
| SyncOrder.ProcessItemsConsistent | trigger/sync_order.ts:106-108 | phase B keeps referential integrity |
| SyncOrder.ItemsAddedConsistent | trigger/sync_order.ts:52-56 | appending the priced rows of the items to create, whose orders and products exist, keeps referential integrity |
| SyncOrder.SyncConsistent | trigger/sync_order.ts:89-108 | a whole run keeps referential integrity, whatever its outcome |
| SyncOrder.ProcessOrderItems | trigger/sync_order.ts:42-61 | the method commits exactly when phase B does, and leaves the store as phase B's result |
| SyncOrder.Run | trigger/sync_order.ts:67-123 | the run's outcome and final store are those of `Sync`, with a failed transaction rolled back |
| SyncProduct.ExtractAllReviews | trigger/sync_product.ts:26-45 | the nested loops return every review of every product, in order, tagged with its product's id |
| SyncProduct.ExtractUniqueUsers | trigger/sync_product.ts:9-24 | the templated user of each distinct reviewer id, in first-appearance order; products without reviews add nothing |
| SyncProduct.AllReviewsMember | trigger/sync_product.ts:26-45 | an extracted review is a review of one of the products and carries a snapshot product id and a reviewer id |
| SyncProduct.SplitProductsSpec | trigger/sync_product.ts:67-71 | `productsToCreate` and `productsToUpdate` partition the snapshot by whether the product id is stored |
| SyncProduct.SplitProductRows | trigger/sync_product.ts:70-71 | the rows of both halves are the snapshot's rows filtered by the stored ids |
| SyncProduct.SyncedUsersSpec | trigger/sync_product.ts:76 | every reviewer is a user after `createUsers`, and existing users are unchanged |
| SyncProduct.PhaseOne | trigger/sync_product.ts:75-79 | the first transaction: create the reviewers, insert the unstored products, update the stored ones; `None` when a write fails |
| SyncProduct.PhaseOneCommits | trigger/sync_product.ts:75-79 | phase 1 commits exactly when every product id repeated in the snapshot is already stored |
| SyncProduct.PhaseOneFailsOnCreate | trigger/sync_product.ts:75-79 | phase 1 fails exactly when creating the new products fails: the updates that follow cannot |
| SyncProduct.PhaseOneResult | trigger/sync_product.ts:75-79 | after phase 1 every snapshot product id and reviewer id is stored; each product holds its last snapshot row; existing users are unchanged; orders, items and reviews are untouched |
| SyncProduct.PhaseOneStore | trigger/sync_product.ts:75-79 | a committed phase 1 is the old store with the reviewers added and every snapshot product written with its last occurrence; nothing else changes |
| SyncProduct.PhaseTwo | trigger/sync_product.ts:89-92 | the second transaction: insert, skipping duplicates, the snapshot reviews whose pair has no review; `None` when a write fails |
| SyncProduct.PhaseTwoCommits | trigger/sync_product.ts:89-92 | phase 2 commits when every reviewer and product exists |
| SyncProduct.PhaseTwoResult | trigger/sync_product.ts:89-92 | phase 2 keeps the existing reviews unchanged; the stored pairs grow by exactly the snapshot's pairs; every new review comes from the snapshot; uniqueness is kept; other tables are untouched |
| SyncProduct.Sync | trigger/sync_product.ts:75-92 | a whole run: phase 1, then phase 2 only once phase 1 committed; the outcome says which phase failed, and the store is the last committed one |
| SyncProduct.SyncOutcome | trigger/sync_product.ts:75-92 | phase 2 has no key or foreign-key failure after phase 1 committed; phase 1 fails exactly when the snapshot repeats an unstored product id, and then the store is unchanged |
| SyncProduct.SyncEmpty | trigger/sync_product.ts:60-92 | an empty snapshot completes and writes nothing |
| SyncProduct.SplitAllStored | trigger/sync_product.ts:70-71 | when every product is stored, nothing is created and every product is updated |
| SyncProduct.PhaseOneStable | trigger/sync_product.ts:75-79 | phase 1 on a store that already holds the snapshot writes nothing |
| SyncProduct.PhaseTwoStable | trigger/sync_product.ts:89-92 | phase 2 writes nothing when every snapshot pair already has a review |
| SyncProduct.SyncIdempotent | trigger/sync_product.ts:67-92 | re-running a completed sync with the same snapshot creates no user, product or review and changes nothing |
| SyncProduct.CompletedRunHolds | trigger/sync_product.ts:67-92 | after a completed run every reviewer, snapshot product and review pair is stored, and writing the snapshot's products again changes nothing |
| SyncProduct.PhaseOneConsistent | trigger/sync_product.ts:75-79 | phase 1 keeps referential integrity |
| SyncProduct.PhaseTwoConsistent | trigger/sync_product.ts:89-92 | phase 2 keeps referential integrity |
| SyncProduct.SyncConsistent | trigger/sync_product.ts:75-92 | a whole run keeps referential integrity, whatever its outcome |
| SyncProduct.Run | trigger/sync_product.ts:51-107 | the run's outcome and final store are those of `Sync`, with a failed transaction rolled back |

## Left out

- **I/O and side effects.** The external feeds, the scheduler (cron, `maxDuration`), logging, timestamps (`created_at`, `updated_at`, `new Date()`) and the run's duration are not modelled. The snapshot is an input sequence.
- **Reads outside the transaction.** `groupOrdersByExistence` and `groupProductsByExistence` read through the global client rather than the transaction's (lib/repositories/orderRepository.ts:58, lib/repositories/productRepository.ts:71). The model reads the same store, which is the same thing as long as no other job writes concurrently. Concurrent runs of the two jobs are not modelled.
- **Read filters.** `groupOrderItemsByExistence` only fetches the items of the input's orders, and `groupReviewsByExistence` only the reviews of the input's products. The model looks the pairs up among all rows, which gives the same answer because a pair of another order or product cannot match.
- **`chunk`.** lib/helper is not part of this model. `Batching.Chunk` assumes it splits the items in order, into pieces of `batchSize` with a shorter last piece.
- **`BATCH_SIZE`.** Only non-negative integers are modelled. A negative, fractional or non-numeric setting is out of scope, except that 0 falls back to 50 as `|| 50` does.
- **Writers take the batch size as a parameter.** The closure passed to `batchProcess` cannot be a method argument in Dafny. So `Batching.BatchProcess` returns the trace of calls, and each writer runs the same chunk loop itself.
- **`Promise.all` inside an update batch.** It is modelled as the batch's updates in input order. Which of two updates of the same id wins is not fixed by the source; the model picks the last one.
- **Schema details.**
  - Prisma's schema is not part of this model.
  - Foreign keys (order to user, item to order and product, review to user and product) and the unique (user, product) constraint on reviews are assumed.
  - A write that breaks a foreign key fails the transaction.
  - No other unique constraint is assumed, for example on `users.email` or on an order item's (order, product) pair. Such a constraint would change the outcomes `SyncOrder.SyncOutcome`, `SyncProduct.SyncOutcome` and the repeated-item-pair bullet above state.
- **Opaque numbers.** Prices, totals, ratings and discounts are opaque integers, since they are only copied. Floating-point values are not modelled.
- **Placeholder columns.** A placeholder product's columns that the code does not set (unit, discount, availability, rating) are left to the schema's defaults.
- **`reviews`.** A missing `reviews` list (`product.reviews?`) is modelled as an empty one.
- **Upper-casing.** `toUpperCase` is modelled on ASCII letters only. Other letters are left unchanged.
- **Number rendering.** `formatUserId` and `formatSKU` are modelled on unbounded integer ids, so three behaviours of JavaScript numbers are not modelled:
  - numbers are doubles, so an id above 2^53 is not exact;
  - `toString` of an id of 1e21 or more gives exponent form ("1e+21"), so `formatSKU` returns a code ending in "-1e+21";
  - `parseInt` of a very long digit string gives `Infinity`, so `formatUserId` returns "U-Infinity".
  Radix prefixes and exponent forms are read as JavaScript reads them: `parseInt("0x10")` is 0 and `parseInt("1e5")` is 1.
- **UTF-16.** `substring(0, 2)` and `padStart` count UTF-16 code units, while the model counts characters. A brand or category that starts with a character outside the Basic Multilingual Plane gets a different code.
- **Failures.** Only key conflicts and missing foreign keys are modelled as write failures. A transaction that times out or loses its connection (`prisma.$transaction` at trigger/sync_order.ts:89 and 106, trigger/sync_product.ts:75 and 89) also aborts and rolls back its phase; that is not modelled.
- **Composite keys.** The `"order_id-product_id"` and `"user_id-product_id"` string keys are modelled as integer pairs. Two different pairs can never share a key in the model.
- **Read-side repository functions** (`getProducts`, `getOrders`, `getUsers`, the `get*ById` functions, `getReviewsByProductId`) are not part of the sync and are not modelled.
- **Log counts.** The item count the orchestrators log (`totalItems`) is not modelled. Its value equals `SyncOrder.TotalItems`.
