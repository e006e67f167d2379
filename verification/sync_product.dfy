/** The scheduled product sync (trigger/sync_product.ts): from one snapshot
    of products, phase 1 creates the reviewers as users and creates or
    updates the products in one transaction; phase 2 then, in a second
    transaction, creates the reviews whose (user, product) pair has no row
    yet. */
module SyncProduct {
  import opened Collections
  import opened Tables
  import opened Existence
  import opened Snapshots
  import opened Store
  import opened UserRepository
  import opened ProductRepository
  import opened ReviewRepository

  /** How a run ends: both transactions committed, or the named one failed
      and was rolled back (the run then rethrows). */
  datatype Outcome = Completed | PhaseOneFailed | PhaseTwoFailed

  datatype RunResult = RunResult(outcome: Outcome, db: Db)

  /** The reviews of one product, each tagged with the product's id. */
  function ReviewsOf(p: ProductResponse): seq<ReviewInput> {
    seq(|p.reviews|, j requires 0 <= j < |p.reviews| =>
      ReviewInput(p.reviews[j].userId, p.productId, p.reviews[j].rating, p.reviews[j].comment))
  }

  function AllReviews(products: seq<ProductResponse>): seq<ReviewInput> {
    Flatten(MapSeq(products, ReviewsOf))
  }

  function ReviewerOf(r: ReviewInput): int {
    r.userId
  }

  /** The reviewers' ids, in the order the reviews come. */
  function ReviewerIds(products: seq<ProductResponse>): seq<int> {
    MapSeq(AllReviews(products), ReviewerOf)
  }

  /** `extractAllReviews(productData)`: push every review of every product,
      tagged with its product's id, in order. */
  method ExtractAllReviews(productData: seq<ProductResponse>) returns (allReviews: seq<ReviewInput>)
    ensures allReviews == AllReviews(productData)
  {
    allReviews := [];
    for i := 0 to |productData|
      invariant allReviews == AllReviews(productData[..i])
    {
      var product := productData[i];
      for j := 0 to |product.reviews|
        invariant allReviews == AllReviews(productData[..i]) + ReviewsOf(product)[..j]
      {
        assert ReviewsOf(product)[..j + 1] == ReviewsOf(product)[..j] + [ReviewsOf(product)[j]];
        var review := product.reviews[j];
        allReviews := allReviews + [ReviewInput(review.userId, product.productId, review.rating, review.comment)];
      }
      assert ReviewsOf(product)[..|product.reviews|] == ReviewsOf(product);
      FlatMapSnoc(productData, ReviewsOf, i);
    }
    assert productData[..|productData|] == productData;
  }

  /** `extractUniqueUsers(productData)`: walk every review of every product
      and add a templated user for each `user_id` not seen yet. */
  method ExtractUniqueUsers(productData: seq<ProductResponse>) returns (users: seq<UserInput>)
    ensures users == ReferencedUsers(ReviewerIds(productData))
  {
    var seen: set<int> := {};
    users := [];
    for i := 0 to |productData|
      invariant users == ReferencedUsers(ReviewerIds(productData[..i]))
      invariant forall id :: id in seen <==> id in ReviewerIds(productData[..i])
    {
      var product := productData[i];
      ghost var done := AllReviews(productData[..i]);
      assert done + ReviewsOf(product)[..0] == done;
      for j := 0 to |product.reviews|
        invariant users == ReferencedUsers(MapSeq(done + ReviewsOf(product)[..j], ReviewerOf))
        invariant forall id :: id in seen <==> id in MapSeq(done + ReviewsOf(product)[..j], ReviewerOf)
      {
        var id := product.reviews[j].userId;
        ghost var before := MapSeq(done + ReviewsOf(product)[..j], ReviewerOf);
        assert MapSeq(done + ReviewsOf(product)[..j + 1], ReviewerOf) == before + [id] by {
          assert done + ReviewsOf(product)[..j + 1] == (done + ReviewsOf(product)[..j]) + [ReviewsOf(product)[j]];
          MapSeqAppend(done + ReviewsOf(product)[..j], [ReviewsOf(product)[j]], ReviewerOf);
        }
        ReferencedUsersSnoc(before, id);
        if id !in seen {
          seen := seen + {id};
          users := users + [TemplatedUser(id)];
        }
      }
      assert ReviewsOf(product)[..|product.reviews|] == ReviewsOf(product);
      FlatMapSnoc(productData, ReviewsOf, i);
    }
    assert productData[..|productData|] == productData;
  }

  /** A review is extracted exactly when it is a review of one of the
      snapshot's products, tagged with that product's id. */
  lemma AllReviewsMember(products: seq<ProductResponse>)
    ensures forall x :: x in AllReviews(products) <==> exists p :: p in products && x in ReviewsOf(p)
    ensures forall x :: x in AllReviews(products) ==> x.productId in ProductIds(products)
    ensures forall x :: x in AllReviews(products) ==> x.userId in ReviewerIds(products)
  {
    FlatMapMember(products, ReviewsOf);
    forall x | x in AllReviews(products)
      ensures x.productId in ProductIds(products) && x.userId in ReviewerIds(products)
    {
      var p :| p in products && x in ReviewsOf(p);
      var j :| 0 <= j < |ReviewsOf(p)| && ReviewsOf(p)[j] == x;
      var i :| 0 <= i < |products| && products[i] == p;
      assert ProductIds(products)[i] == x.productId;
      var k :| 0 <= k < |AllReviews(products)| && AllReviews(products)[k] == x;
      assert ReviewerIds(products)[k] == x.userId;
    }
  }

  function ProductKey(p: ProductResponse): int {
    p.productId
  }

  /** The ids of the snapshot products already stored when the run starts. */
  function ExistingProductIds(stored: map<int, Product>, products: seq<ProductResponse>): set<int> {
    GroupProductsByExistence(stored, ProductIds(products)).existing
  }

  function ProductsToCreate(stored: map<int, Product>, products: seq<ProductResponse>): seq<ProductResponse> {
    Where(products, ProductKey, ExistingProductIds(stored, products), false)
  }

  function ProductsToUpdate(stored: map<int, Product>, products: seq<ProductResponse>): seq<ProductResponse> {
    Where(products, ProductKey, ExistingProductIds(stored, products), true)
  }

  /** The snapshot splits into the products to create, whose id is not
      stored, and those to update, whose id is; every product lands in
      exactly one of them. */
  lemma SplitProductsSpec(stored: map<int, Product>, products: seq<ProductResponse>)
    ensures multiset(ProductsToCreate(stored, products)) + multiset(ProductsToUpdate(stored, products)) == multiset(products)
    ensures forall p :: p in ProductsToCreate(stored, products) <==> p in products && p.productId !in stored
    ensures forall p :: p in ProductsToUpdate(stored, products) <==> p in products && p.productId in stored
  {
    var e := ExistingProductIds(stored, products);
    GroupByExistenceSpec(stored.Keys, ProductIds(products));
    WherePartition(products, ProductKey, e);
    WhereCount(products, ProductKey, e, false);
    WhereCount(products, ProductKey, e, true);
    forall p | p in products ensures p.productId in ProductIds(products) {
      var i :| 0 <= i < |products| && products[i] == p;
      assert ProductIds(products)[i] == p.productId;
    }
  }

  /** The rows of the products to create, and to update, are the snapshot's
      rows on each side of the stored ids. */
  lemma SplitProductRows(stored: map<int, Product>, products: seq<ProductResponse>)
    ensures ProductRows(ProductsToCreate(stored, products))
         == RowsWhere(ProductRows(products), ExistingProductIds(stored, products), false)
    ensures ProductRows(ProductsToUpdate(stored, products))
         == RowsWhere(ProductRows(products), ExistingProductIds(stored, products), true)
    ensures forall k :: k in KeysOf(ProductRows(products)) ==> (k in ExistingProductIds(stored, products) <==> k in stored)
  {
    var e := ExistingProductIds(stored, products);
    WhereRows(products, ProductKey, e, false, ProductRow);
    WhereRows(products, ProductKey, e, true, ProductRow);
    GroupByExistenceSpec(stored.Keys, ProductIds(products));
  }

  /** The users table after phase 1. */
  function SyncedUsers(users: map<int, User>, products: seq<ProductResponse>): map<int, User> {
    SkipInsert(users, UserRows(ReferencedUsers(ReviewerIds(products))))
  }

  /** Phase 1: create the reviewers, create the new products, update the
      stored ones; `None` when a write fails and the transaction rolls back. */
  function PhaseOne(db: Db, products: seq<ProductResponse>): Option<Db> {
    var users := SyncedUsers(db.users, products);
    var created := Insert(db.products, ProductRows(ProductsToCreate(db.products, products)));
    if created.None? then None
    else
      var updated := Update(created.value, ProductRows(ProductsToUpdate(db.products, products)));
      if updated.None? then None
      else Some(db.(users := users, products := updated.value))
  }

  /** Phase 2: classify the snapshot's reviews against the stored pairs and
      create the unstored ones. */
  function PhaseTwo(db: Db, products: seq<ProductResponse>): Option<Db> {
    var toCreate := ReviewsWithoutRow(AllReviews(products), ReviewPairs(db.reviews));
    match InsertReviews(db.reviews, db.users, db.products, toCreate)
    case None => None
    case Some(reviews) => Some(db.(reviews := reviews))
  }

  /** A whole run: phase 2 only runs once phase 1 has committed. */
  function Sync(db: Db, products: seq<ProductResponse>): RunResult {
    match PhaseOne(db, products)
    case None => RunResult(PhaseOneFailed, db)
    case Some(afterOne) =>
      match PhaseTwo(afterOne, products)
      case None => RunResult(PhaseTwoFailed, afterOne)
      case Some(afterTwo) => RunResult(Completed, afterTwo)
  }

  /** Every reviewer of the snapshot is a user once phase 1 created them,
      and the users that existed keep their rows. */
  lemma SyncedUsersSpec(users: map<int, User>, products: seq<ProductResponse>)
    ensures forall x :: x in AllReviews(products) ==> x.userId in SyncedUsers(users, products)
    ensures forall id :: id in users ==> id in SyncedUsers(users, products) && SyncedUsers(users, products)[id] == users[id]
  {
    ReferencedUsersStored(users, ReviewerIds(products));
    AllReviewsMember(products);
  }

  /** Phase 1 commits exactly when every product id repeated in the
      snapshot is already stored (a new id given twice makes `createMany`
      fail); updates cannot fail, since their ids were just read back. */
  lemma PhaseOneCommits(db: Db, products: seq<ProductResponse>)
    ensures PhaseOne(db, products).Some? <==>
      forall i, j :: 0 <= i < j < |products| && products[i].productId == products[j].productId ==>
        products[i].productId in db.products
  {
    var rows := ProductRows(products);
    var e := ExistingProductIds(db.products, products);
    PhaseOneFailsOnCreate(db, products);
    SplitProductRows(db.products, products);
    InsertOutside(db.products, rows, e);
    assert forall i :: 0 <= i < |rows| ==> rows[i].0 == products[i].productId;
  }

  /** Only the creation of new products can make phase 1 fail. */
  lemma PhaseOneFailsOnCreate(db: Db, products: seq<ProductResponse>)
    ensures PhaseOne(db, products).Some? <==>
      Insert(db.products, ProductRows(ProductsToCreate(db.products, products))).Some?
  {
    var rows := ProductRows(products);
    var e := ExistingProductIds(db.products, products);
    SplitProductRows(db.products, products);
    if Insert(db.products, RowsWhere(rows, e, false)).Some? {
      InsertThenUpdate(db.products, rows, e);
    }
  }

  /** A committed phase 1 holds, for every snapshot product id, the fields
      of its last occurrence, keeps the other products, makes every reviewer
      a user without touching the existing ones, and writes no other table. */
  lemma PhaseOneResult(db: Db, products: seq<ProductResponse>)
    requires PhaseOne(db, products).Some?
    ensures var r := PhaseOne(db, products).value;
      && r.products == db.products + LastValues(ProductRows(products))
      && (forall p :: p in products ==> p.productId in r.products)
      && (forall x :: x in AllReviews(products) ==> x.userId in r.users && x.productId in r.products)
      && (forall id :: id in db.users ==> id in r.users && r.users[id] == db.users[id])
      && r.orders == db.orders && r.items == db.items && r.reviews == db.reviews
  {
    PhaseOneStore(db, products);
    SyncedUsersSpec(db.users, products);
    AllReviewsMember(products);
    SnapshotProductsStored(db.products, products);
  }

  /** A committed phase 1 is the store with the reviewers added and every
      snapshot product written with its last occurrence. */
  lemma PhaseOneStore(db: Db, products: seq<ProductResponse>)
    requires PhaseOne(db, products).Some?
    ensures PhaseOne(db, products).value
         == db.(users := SyncedUsers(db.users, products), products := db.products + LastValues(ProductRows(products)))
  {
    var rows := ProductRows(products);
    var e := ExistingProductIds(db.products, products);
    SplitProductRows(db.products, products);
    InsertThenUpdate(db.products, rows, e);
  }

  /** Writing the snapshot's product rows leaves every snapshot product id
      stored. */
  lemma SnapshotProductsStored(stored: map<int, Product>, products: seq<ProductResponse>)
    ensures forall p :: p in products ==> p.productId in stored + LastValues(ProductRows(products))
  {
    var rows := ProductRows(products);
    LastValuesKeys(rows);
    forall p | p in products ensures p.productId in KeysOf(rows) {
      var i :| 0 <= i < |products| && products[i] == p;
      assert KeysOf(rows)[i] == p.productId;
    }
  }

  /** Phase 2 commits when every review names a stored user and product. */
  lemma PhaseTwoCommits(db: Db, products: seq<ProductResponse>)
    requires forall x :: x in AllReviews(products) ==> x.userId in db.users && x.productId in db.products
    ensures PhaseTwo(db, products).Some?
  {
    GroupThenCreateReviews(db.reviews, db.users, db.products, AllReviews(products));
  }

  /** A committed phase 2 only appends reviews: the stored pairs become the
      old ones plus the snapshot's, each added row is a snapshot review whose
      pair had no row, a store with one review per pair keeps that, and no
      other table is written. A review whose pair is stored is not
      rewritten, even when its rating or comment changed. */
  lemma PhaseTwoResult(db: Db, products: seq<ProductResponse>)
    requires PhaseTwo(db, products).Some?
    ensures var r := PhaseTwo(db, products).value;
      && |db.reviews| <= |r.reviews| && r.reviews[..|db.reviews|] == db.reviews
      && ReviewPairs(r.reviews) == ReviewPairs(db.reviews) + InputPairs(AllReviews(products))
      && AddedFromInput(db.reviews, r.reviews, db.users, db.products, AllReviews(products))
      && (UniquePairs(db.reviews) ==> UniquePairs(r.reviews))
      && r.users == db.users && r.products == db.products && r.orders == db.orders && r.items == db.items
  {
    var all := AllReviews(products);
    var toCreate := ReviewsWithoutRow(all, ReviewPairs(db.reviews));
    InsertReviewsSpec(db.reviews, db.users, db.products, toCreate);
    WhereCount(all, ReviewPair, ReviewPairs(db.reviews), false);
    var r := InsertReviews(db.reviews, db.users, db.products, toCreate).value;
    AddedFromPrefix(db.reviews, r, db.users, db.products, toCreate, all);
    forall q | q in InputPairs(all) ensures q in ReviewPairs(db.reviews) + InputPairs(toCreate) {
      var x :| x in all && ReviewPair(x) == q;
      if q !in ReviewPairs(db.reviews) {
        assert x in toCreate;
      }
    }
  }

  /** Phase 2 has no key or foreign-key failure after phase 1 committed:
      a run either rolls back phase 1, exactly when a new product id repeats in
      the snapshot, or completes. */
  lemma SyncOutcome(db: Db, products: seq<ProductResponse>)
    ensures Sync(db, products).outcome != PhaseTwoFailed
    ensures Sync(db, products).outcome == PhaseOneFailed <==>
      exists i, j :: 0 <= i < j < |products| && products[i].productId == products[j].productId &&
        products[i].productId !in db.products
    ensures Sync(db, products).outcome == PhaseOneFailed ==> Sync(db, products).db == db
  {
    PhaseOneCommits(db, products);
    if PhaseOne(db, products).Some? {
      PhaseOneResult(db, products);
      PhaseTwoCommits(PhaseOne(db, products).value, products);
    }
  }

  /** An empty snapshot completes and writes nothing. */
  lemma SyncEmpty(db: Db)
    ensures Sync(db, []) == RunResult(Completed, db)
  {
    assert AllReviews([]) == [];
    assert ReferencedUsers(ReviewerIds([])) == [];
    assert PhaseOne(db, []) == Some(db);
  }

  /** When every snapshot product id is stored, all products go to the
      update side. */
  lemma SplitAllStored(stored: map<int, Product>, products: seq<ProductResponse>)
    requires forall p :: p in products ==> p.productId in stored
    ensures ProductsToCreate(stored, products) == [] && ProductsToUpdate(stored, products) == products
  {
    var e := ExistingProductIds(stored, products);
    GroupByExistenceSpec(stored.Keys, ProductIds(products));
    forall p | p in products ensures p.productId in e {
      var i :| 0 <= i < |products| && products[i] == p;
      assert ProductIds(products)[i] == p.productId;
    }
    WhereAll(products, ProductKey, e, true);
    WhereNone(products, ProductKey, e, false);
  }

  /** Phase 1 writes nothing when every reviewer is a user and every
      snapshot product already holds the fields the snapshot gives it. */
  lemma PhaseOneStable(db: Db, products: seq<ProductResponse>)
    requires forall x :: x in AllReviews(products) ==> x.userId in db.users
    requires forall p :: p in products ==> p.productId in db.products
    requires db.products + LastValues(ProductRows(products)) == db.products
    ensures PhaseOne(db, products) == Some(db)
  {
    forall id | id in ReviewerIds(products) ensures id in db.users {
      var i :| 0 <= i < |ReviewerIds(products)| && ReviewerIds(products)[i] == id;
      assert AllReviews(products)[i] in AllReviews(products);
    }
    ReferencedUsersPresent(db.users, ReviewerIds(products));
    SplitAllStored(db.products, products);
    UpdateSpec(db.products, ProductRows(products));
    forall i | 0 <= i < |ProductRows(products)| ensures ProductRows(products)[i].0 in db.products {
      assert products[i] in products;
    }
  }

  /** Phase 2 writes nothing when every snapshot review's pair already has a
      row. */
  lemma PhaseTwoStable(db: Db, products: seq<ProductResponse>)
    requires forall x :: x in AllReviews(products) ==> ReviewPair(x) in ReviewPairs(db.reviews)
    ensures PhaseTwo(db, products) == Some(db)
  {
    var all := AllReviews(products);
    var toCreate := ReviewsWithoutRow(all, ReviewPairs(db.reviews));
    WhereCount(all, ReviewPair, ReviewPairs(db.reviews), false);
    forall x ensures x !in toCreate {
      assert x in toCreate ==> x in all && ReviewPair(x) !in ReviewPairs(db.reviews);
    }
    NoMembersEmpty(toCreate);
  }

  /** A completed run leaves a store on which the same snapshot completes
      again and writes nothing: the sync converges. */
  lemma SyncIdempotent(db: Db, products: seq<ProductResponse>)
    requires Sync(db, products).outcome == Completed
    ensures Sync(Sync(db, products).db, products) == RunResult(Completed, Sync(db, products).db)
  {
    var afterTwo := Sync(db, products).db;
    CompletedRunHolds(db, products);
    PhaseOneStable(afterTwo, products);
    PhaseTwoStable(afterTwo, products);
  }

  /** After a completed run every reviewer, snapshot product and review pair
      is stored, and every product holds its last occurrence. */
  lemma CompletedRunHolds(db: Db, products: seq<ProductResponse>)
    requires Sync(db, products).outcome == Completed
    ensures var d := Sync(db, products).db;
      && (forall x :: x in AllReviews(products) ==> x.userId in d.users)
      && (forall p :: p in products ==> p.productId in d.products)
      && d.products + LastValues(ProductRows(products)) == d.products
      && (forall x :: x in AllReviews(products) ==> ReviewPair(x) in ReviewPairs(d.reviews))
  {
    var afterOne := PhaseOne(db, products).value;
    var afterTwo := PhaseTwo(afterOne, products).value;
    PhaseOneResult(db, products);
    PhaseTwoResult(afterOne, products);
    MapUnionTwice(db.products, LastValues(ProductRows(products)));
    forall x | x in AllReviews(products) ensures ReviewPair(x) in ReviewPairs(afterTwo.reviews) {
      assert ReviewPair(x) in InputPairs(AllReviews(products));
    }
  }

  /** Phase 1 keeps the store's foreign keys: it only adds users and
      products, and rewrites no row that refers to them. */
  lemma PhaseOneConsistent(db: Db, products: seq<ProductResponse>)
    requires Consistent(db)
    requires PhaseOne(db, products).Some?
    ensures Consistent(PhaseOne(db, products).value)
  {
    var r := PhaseOne(db, products).value;
    PhaseOneResult(db, products);
    forall row | row in r.items && row.productId.Some? ensures row.productId.value in r.products {
      var id := row.productId.value;
      assert id in db.products;
    }
  }

  /** Phase 2 keeps the store's foreign keys: each review it adds names a
      stored user and product. */
  lemma PhaseTwoConsistent(db: Db, products: seq<ProductResponse>)
    requires Consistent(db)
    requires PhaseTwo(db, products).Some?
    ensures Consistent(PhaseTwo(db, products).value)
  {
    var r := PhaseTwo(db, products).value;
    PhaseTwoResult(db, products);
    forall x | x in r.reviews ensures x.userId in r.users && x.productId in r.products {
      var k :| 0 <= k < |r.reviews| && r.reviews[k] == x;
      if k < |db.reviews| {
        assert db.reviews[k] == x;
      } else {
        assert RowFromInput(r.reviews[k], db.reviews, db.users, db.products, AllReviews(products));
      }
    }
  }

  /** A run keeps the store's foreign keys, whatever its outcome. */
  lemma SyncConsistent(db: Db, products: seq<ProductResponse>)
    requires Consistent(db)
    ensures Consistent(Sync(db, products).db)
  {
    if PhaseOne(db, products).Some? {
      var afterOne := PhaseOne(db, products).value;
      PhaseOneConsistent(db, products);
      if PhaseTwo(afterOne, products).Some? {
        PhaseTwoConsistent(afterOne, products);
      }
    }
  }

  /** `syncProduct.run` on a fetched snapshot: classify the products against
      the store, run phase 1 in a transaction, then phase 2 in another; a
      failed phase restores the store as it was when that phase began. */
  method Run(db: Database, productData: seq<ProductResponse>, batchSetting: nat) returns (outcome: Outcome)
    modifies db
    ensures RunResult(outcome, db.Value()) == Sync(old(db.Value()), productData)
  {
    var allUsers := ExtractUniqueUsers(productData);
    var allReviews := ExtractAllReviews(productData);
    var productIds := ProductIds(productData);
    var existingProductIds := GroupProductsByExistence(db.products, productIds).existing;
    var productsToCreate := Where(productData, ProductKey, existingProductIds, false);
    var productsToUpdate := Where(productData, ProductKey, existingProductIds, true);

    var beforeOne := db.Value();
    CreateUsers(db, allUsers, batchSetting);
    var ok := CreateProducts(db, productsToCreate, batchSetting);
    if ok {
      ok := UpdateProducts(db, productsToUpdate, batchSetting);
    }
    if !ok {
      db.Restore(beforeOne);
      return PhaseOneFailed;
    }
    assert PhaseOne(beforeOne, productData) == Some(db.Value());

    var beforeTwo := db.Value();
    var reviewsToCreate := GroupReviewsByExistence(db, allReviews);
    ok := CreateReviews(db, reviewsToCreate, batchSetting);
    if !ok {
      db.Restore(beforeTwo);
      return PhaseTwoFailed;
    }
    return Completed;
  }
}
