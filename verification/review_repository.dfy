/** Review writes of the product sync (lib/repositories/reviewRepository.ts).
    A review is a row with a generated id; the store keeps at most one review
    per (user, product) pair, and a review must name a stored user and a
    stored product. */
module ReviewRepository {
  import opened Collections
  import opened Batching
  import opened Store

  datatype ReviewInput = ReviewInput(userId: int, productId: int, rating: int, comment: string)

  /** The key `${user_id}-${product_id}` of a review, as a pair. */
  function ReviewPair(r: ReviewInput): (int, int) {
    (r.userId, r.productId)
  }

  function RowPair(r: ReviewRow): (int, int) {
    (r.userId, r.productId)
  }

  /** The pairs of the stored reviews. */
  function ReviewPairs(rows: seq<ReviewRow>): set<(int, int)> {
    set r | r in rows :: RowPair(r)
  }

  /** The store's uniqueness constraint on (user, product). */
  predicate UniquePairs(rows: seq<ReviewRow>) {
    forall i, j :: 0 <= i < j < |rows| ==> RowPair(rows[i]) != RowPair(rows[j])
  }

  /** The inputs whose pair has no stored review, in input order. */
  function ReviewsWithoutRow(reviews: seq<ReviewInput>, stored: set<(int, int)>): seq<ReviewInput> {
    Where(reviews, ReviewPair, stored, false)
  }

  /** `groupReviewsByExistence(tx, reviews)`: read the reviews of the input's
      products, collect their pairs, and keep the inputs whose pair is not
      among them. */
  method GroupReviewsByExistence(tx: Database, reviews: seq<ReviewInput>)
    returns (reviewsToCreate: seq<ReviewInput>)
    ensures reviewsToCreate == ReviewsWithoutRow(reviews, ReviewPairs(tx.reviews))
  {
    var productIds := set r | r in reviews :: r.productId;
    var existingKeys: set<(int, int)> := {};
    for k := 0 to |tx.reviews|
      invariant existingKeys == set r | r in tx.reviews[..k] && r.productId in productIds :: RowPair(r)
    {
      var row := tx.reviews[k];
      assert tx.reviews[..k + 1] == tx.reviews[..k] + [row];
      if row.productId in productIds {
        existingKeys := existingKeys + {RowPair(row)};
      }
    }
    assert tx.reviews[..|tx.reviews|] == tx.reviews;
    reviewsToCreate := [];
    for j := 0 to |reviews|
      invariant reviewsToCreate == ReviewsWithoutRow(reviews[..j], ReviewPairs(tx.reviews))
    {
      var review := reviews[j];
      assert reviews[..j + 1][..j] == reviews[..j];
      assert review.productId in productIds;
      if ReviewPair(review) !in existingKeys {
        reviewsToCreate := reviewsToCreate + [review];
      }
    }
    assert reviews[..|reviews|] == reviews;
  }

  /** The classifier keeps each input whose (user, product) pair has no
      stored review as often as it occurs and drops every input whose pair
      has one; another product of the same user does not block it. */
  lemma ReviewsWithoutRowSpec(reviews: seq<ReviewInput>, rows: seq<ReviewRow>)
    ensures forall x ::
      multiset(ReviewsWithoutRow(reviews, ReviewPairs(rows)))[x] ==
      if ReviewPair(x) in ReviewPairs(rows) then 0 else multiset(reviews)[x]
    ensures forall x :: x in ReviewsWithoutRow(reviews, ReviewPairs(rows)) <==>
      x in reviews && !exists r :: r in rows && r.userId == x.userId && r.productId == x.productId
  {
    WhereCount(reviews, ReviewPair, ReviewPairs(rows), false);
  }

  function NewReviewRow(r: ReviewInput): ReviewRow {
    ReviewRow(r.userId, r.productId, r.rating, r.comment)
  }

  /** `createMany({ data, skipDuplicates: true })` on the review table: a row
      whose pair is already stored (or came earlier) is skipped; a row that
      would be inserted but names an unknown user or product fails the
      write. */
  function InsertReviews(rows: seq<ReviewRow>, users: map<int, User>, products: map<int, Product>,
                         input: seq<ReviewInput>): Option<seq<ReviewRow>>
  {
    if input == [] then Some(rows)
    else
      match InsertReviews(rows, users, products, input[..|input| - 1])
      case None => None
      case Some(r) =>
        var x := input[|input| - 1];
        if ReviewPair(x) in ReviewPairs(r) then Some(r)
        else if x.userId in users && x.productId in products then Some(r + [NewReviewRow(x)])
        else None
  }

  /** Every input names a stored user and product, or has a stored pair. */
  predicate InsertableReviews(rows: seq<ReviewRow>, users: map<int, User>, products: map<int, Product>,
                              input: seq<ReviewInput>)
  {
    forall x :: x in input ==> ReviewPair(x) in ReviewPairs(rows) || (x.userId in users && x.productId in products)
  }

  function InputPairs(input: seq<ReviewInput>): set<(int, int)> {
    set x | x in input :: ReviewPair(x)
  }

  lemma InputPairsSnoc(input: seq<ReviewInput>, x: ReviewInput)
    ensures InputPairs(input + [x]) == InputPairs(input) + {ReviewPair(x)}
  {
    assert forall y :: y in input + [x] <==> y in input || y == x;
  }

  lemma ReviewPairsSnoc(rows: seq<ReviewRow>, row: ReviewRow)
    ensures ReviewPairs(rows + [row]) == ReviewPairs(rows) + {RowPair(row)}
  {
    assert forall y :: y in rows + [row] <==> y in rows || y == row;
  }

  /** Every row after the first `|rows|` is the row of an input that names
      a stored user and product and whose pair was not stored. */
  ghost predicate AddedFromInput(rows: seq<ReviewRow>, r: seq<ReviewRow>, users: map<int, User>,
                                 products: map<int, Product>, input: seq<ReviewInput>)
  {
    forall k :: |rows| <= k < |r| ==> RowFromInput(r[k], rows, users, products, input)
  }

  ghost predicate RowFromInput(row: ReviewRow, rows: seq<ReviewRow>, users: map<int, User>,
                               products: map<int, Product>, input: seq<ReviewInput>)
  {
    exists x :: x in input && row == NewReviewRow(x) && ReviewPair(x) !in ReviewPairs(rows) &&
                x.userId in users && x.productId in products
  }

  /** A successful skipping insert only appends; the pairs it adds are the
      input pairs; each row it adds is an input that names a stored user and
      product and whose pair was not stored. */
  lemma {:induction false} InsertReviewsGrowth(rows: seq<ReviewRow>, users: map<int, User>,
                                               products: map<int, Product>, input: seq<ReviewInput>)
    requires InsertReviews(rows, users, products, input).Some?
    ensures var r := InsertReviews(rows, users, products, input).value;
      && |rows| <= |r| && r[..|rows|] == rows
      && ReviewPairs(r) == ReviewPairs(rows) + InputPairs(input)
      && AddedFromInput(rows, r, users, products, input)
  {
    if input != [] {
      var init := input[..|input| - 1];
      var x := input[|input| - 1];
      assert input == init + [x];
      InsertReviewsGrowth(rows, users, products, init);
      InputPairsSnoc(init, x);
      var r := InsertReviews(rows, users, products, init).value;
      AddedFromPrefix(rows, r, users, products, init, input);
      if ReviewPair(x) !in ReviewPairs(r) {
        var r' := r + [NewReviewRow(x)];
        ReviewPairsSnoc(r, NewReviewRow(x));
        assert r'[..|r|] == r;
        forall k | |rows| <= k < |r'| ensures RowFromInput(r'[k], rows, users, products, input) {
          if k == |r| {
            assert r'[k] == NewReviewRow(x);
          } else {
            assert r'[k] == r[k];
          }
        }
      }
    }
  }

  lemma AddedFromPrefix(rows: seq<ReviewRow>, r: seq<ReviewRow>, users: map<int, User>,
                        products: map<int, Product>, init: seq<ReviewInput>, input: seq<ReviewInput>)
    requires AddedFromInput(rows, r, users, products, init)
    requires forall y :: y in init ==> y in input
    ensures AddedFromInput(rows, r, users, products, input)
  {
    forall k | |rows| <= k < |r|
      ensures RowFromInput(r[k], rows, users, products, input)
    {
      var y :| y in init && r[k] == NewReviewRow(y) && ReviewPair(y) !in ReviewPairs(rows) &&
               y.userId in users && y.productId in products;
      assert y in input;
    }
  }

  /** The skipping insert succeeds exactly when every input is insertable. */
  lemma {:induction false} InsertReviewsSucceeds(rows: seq<ReviewRow>, users: map<int, User>,
                                                 products: map<int, Product>, input: seq<ReviewInput>)
    ensures InsertReviews(rows, users, products, input).Some? <==> InsertableReviews(rows, users, products, input)
  {
    if input != [] {
      var init := input[..|input| - 1];
      var x := input[|input| - 1];
      assert input == init + [x];
      assert forall y :: y in input <==> y in init || y == x;
      InsertReviewsSucceeds(rows, users, products, init);
      if InsertReviews(rows, users, products, init).Some? {
        var r := InsertReviews(rows, users, products, init).value;
        InsertReviewsGrowth(rows, users, products, init);
        if ReviewPair(x) in ReviewPairs(r) && ReviewPair(x) !in ReviewPairs(rows) {
          var y :| y in init && ReviewPair(y) == ReviewPair(x);
          var row :| row in r && RowPair(row) == ReviewPair(x);
          var k :| 0 <= k < |r| && r[k] == row;
        }
      }
    }
  }

  /** The skipping insert keeps the (user, product) pairs unique. */
  lemma {:induction false} InsertReviewsUnique(rows: seq<ReviewRow>, users: map<int, User>,
                                               products: map<int, Product>, input: seq<ReviewInput>)
    requires UniquePairs(rows)
    requires InsertReviews(rows, users, products, input).Some?
    ensures UniquePairs(InsertReviews(rows, users, products, input).value)
  {
    if input != [] {
      var init := input[..|input| - 1];
      var x := input[|input| - 1];
      InsertReviewsUnique(rows, users, products, init);
      var r := InsertReviews(rows, users, products, init).value;
      if ReviewPair(x) !in ReviewPairs(r) {
        var r' := r + [NewReviewRow(x)];
        forall i, j | 0 <= i < j < |r'| ensures RowPair(r'[i]) != RowPair(r'[j]) {
          if j == |r| {
            assert r[i] in r;
          } else {
            assert r'[i] == r[i] && r'[j] == r[j];
          }
        }
      }
    }
  }

  /** The skipping insert succeeds exactly when every input is insertable;
      it then only appends, adds every input pair, keeps the pairs unique,
      and each row it adds is an input whose pair was not stored. */
  lemma InsertReviewsSpec(rows: seq<ReviewRow>, users: map<int, User>,
                          products: map<int, Product>, input: seq<ReviewInput>)
    ensures InsertReviews(rows, users, products, input).Some? <==> InsertableReviews(rows, users, products, input)
    ensures InsertReviews(rows, users, products, input).Some? ==>
      var r := InsertReviews(rows, users, products, input).value;
      && |rows| <= |r| && r[..|rows|] == rows
      && ReviewPairs(r) == ReviewPairs(rows) + InputPairs(input)
      && (UniquePairs(rows) ==> UniquePairs(r))
      && AddedFromInput(rows, r, users, products, input)
  {
    InsertReviewsSucceeds(rows, users, products, input);
    if InsertReviews(rows, users, products, input).Some? {
      InsertReviewsGrowth(rows, users, products, input);
      if UniquePairs(rows) {
        InsertReviewsUnique(rows, users, products, input);
      }
    }
  }

  lemma {:induction false} InsertReviewsAppend(rows: seq<ReviewRow>, users: map<int, User>,
                                               products: map<int, Product>, a: seq<ReviewInput>, b: seq<ReviewInput>)
    ensures InsertReviews(rows, users, products, a + b) ==
      match InsertReviews(rows, users, products, a)
      case None => None
      case Some(r) => InsertReviews(r, users, products, b)
  {
    if b == [] {
      assert a + b == a;
    } else {
      assert (a + b)[..|a + b| - 1] == a + b[..|b| - 1];
      InsertReviewsAppend(rows, users, products, a, b[..|b| - 1]);
      if InsertReviews(rows, users, products, a).None? {
        assert InsertReviews(rows, users, products, a + b[..|b| - 1]).None?;
      }
    }
  }

  /** `createReviews(tx, reviews)`: the skipping `createMany` per batch. */
  method CreateReviews(tx: Database, reviews: seq<ReviewInput>, batchSetting: nat) returns (ok: bool)
    modifies tx`reviews
    ensures ok == InsertReviews(old(tx.reviews), tx.users, tx.products, reviews).Some?
    ensures ok ==> tx.reviews == InsertReviews(old(tx.reviews), tx.users, tx.products, reviews).value
  {
    ok := true;
    if |reviews| == 0 {
      return;
    }
    var chunks := Chunk(reviews, BatchSize(batchSetting));
    for i := 0 to |chunks|
      invariant InsertReviews(old(tx.reviews), tx.users, tx.products, Flatten(chunks[..i])) == Some(tx.reviews)
    {
      FlattenSnoc(chunks, i);
      InsertReviewsAppend(old(tx.reviews), tx.users, tx.products, Flatten(chunks[..i]), chunks[i]);
      var written := InsertReviews(tx.reviews, tx.users, tx.products, chunks[i]);
      if written.None? {
        assert chunks == chunks[..i + 1] + chunks[i + 1..];
        FlattenAppend(chunks[..i + 1], chunks[i + 1..]);
        InsertReviewsAppend(old(tx.reviews), tx.users, tx.products, Flatten(chunks[..i + 1]), Flatten(chunks[i + 1..]));
        return false;
      }
      tx.reviews := written.value;
    }
    assert chunks[..|chunks|] == chunks;
  }

  /** Classifying and then creating leaves a review for every input pair and
      adds rows only for inputs whose pair was not stored. */
  lemma GroupThenCreateReviews(rows: seq<ReviewRow>, users: map<int, User>, products: map<int, Product>,
                               reviews: seq<ReviewInput>)
    requires forall x :: x in reviews ==> x.userId in users && x.productId in products
    ensures var created := ReviewsWithoutRow(reviews, ReviewPairs(rows));
      && InsertReviews(rows, users, products, created).Some?
      && ReviewPairs(InsertReviews(rows, users, products, created).value)
           == ReviewPairs(rows) + InputPairs(reviews)
  {
    var created := ReviewsWithoutRow(reviews, ReviewPairs(rows));
    WhereCount(reviews, ReviewPair, ReviewPairs(rows), false);
    InsertReviewsSpec(rows, users, products, created);
    var r := InsertReviews(rows, users, products, created).value;
    forall p | p in InputPairs(reviews) ensures p in ReviewPairs(r) {
      var x :| x in reviews && ReviewPair(x) == p;
      if p !in ReviewPairs(rows) {
        assert x in created;
      }
    }
  }
}
