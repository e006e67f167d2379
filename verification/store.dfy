/** The external feed's records (lib/types.ts), as the sync jobs receive them. */
module Snapshots {

  datatype ItemResponse = ItemResponse(productId: int, quantity: int)

  datatype OrderResponse = OrderResponse(
    orderId: int, userId: int, items: seq<ItemResponse>, totalPrice: int, status: string)

  datatype ReviewResponse = ReviewResponse(userId: int, rating: int, comment: string)

  /** A product record; a missing `reviews` list is an empty one. */
  datatype ProductResponse = ProductResponse(
    productId: int, name: string, description: string, price: int, unit: string,
    image: string, discount: int, availability: bool, brand: string, category: string,
    rating: int, reviews: seq<ReviewResponse>)
}

/** The relational store the repositories write to: users, products and
    orders keyed by their external id, order items and reviews as rows with
    generated ids (left implicit). Prices, ratings and discounts are only
    copied, so they are opaque integers here; timestamps are not modelled. */
module Store {
  import opened Collections

  datatype User = User(name: string, email: string)

  /** The product columns the feed supplies and a placeholder leaves to the
      schema's defaults. */
  datatype ProductExtra =
    | Listed(unit: string, discount: int, availability: bool, rating: int)
    | SchemaDefaults

  datatype Product = Product(
    name: string, description: string, price: int, image: string,
    brand: string, category: string, extra: ProductExtra)

  datatype Order = Order(userId: int, totalPrice: int, status: string)

  /** An order item; `productId` is nullable in the schema. */
  datatype ItemRow = ItemRow(orderId: int, productId: Option<int>, quantity: int, price: int)

  datatype ReviewRow = ReviewRow(userId: int, productId: int, rating: int, comment: string)

  /** The whole store as a value. */
  datatype Db = Db(
    users: map<int, User>, products: map<int, Product>, orders: map<int, Order>,
    items: seq<ItemRow>, reviews: seq<ReviewRow>)

  /** The schema's foreign keys hold: every order names a user, every item
      an order and (when it has one) a product, every review a user and a
      product. */
  predicate Consistent(db: Db) {
    && (forall id :: id in db.orders ==> db.orders[id].userId in db.users)
    && (forall row :: row in db.items ==>
          row.orderId in db.orders && (row.productId.Some? ==> row.productId.value in db.products))
    && (forall r :: r in db.reviews ==> r.userId in db.users && r.productId in db.products)
  }

  /** The store the writers change in place (the `tx` client of a transaction). */
  class Database {
    var users: map<int, User>
    var products: map<int, Product>
    var orders: map<int, Order>
    var items: seq<ItemRow>
    var reviews: seq<ReviewRow>

    function Value(): Db
      reads this
    {
      Db(users, products, orders, items, reviews)
    }

    constructor (initial: Db)
      ensures Value() == initial
    {
      users, products, orders := initial.users, initial.products, initial.orders;
      items, reviews := initial.items, initial.reviews;
    }

    /** Roll back to the state saved when the transaction began. */
    method Restore(saved: Db)
      modifies this
      ensures Value() == saved
    {
      users, products, orders := saved.users, saved.products, saved.orders;
      items, reviews := saved.items, saved.reviews;
    }
  }
}
