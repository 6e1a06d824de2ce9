/**
  The persistent entities of the store, as values. Prices are whole minor
  currency units, instants are whole seconds, and a relation to another
  entity is held as that entity's id.
*/
module Entities {
  import opened Results

  type UserId = string
  type ProductId = string
  type CartId = string
  type OrderId = string

  datatype User = User(userId: UserId, email: string)

  /** The two pricing columns of a product; the rest of the product row is not modelled. */
  datatype Product = Product(productId: ProductId, price: int, discountedPrice: int)

  /** A cart line; totalPrice is a cached value computed when the quantity was last set. */
  datatype CartItem = CartItem(itemId: nat, productId: ProductId, quantity: int, totalPrice: int)

  /** The one cart of a user, created on the first add. */
  datatype Cart = Cart(cartId: CartId, createAt: int, user: UserId, items: seq<CartItem>)

  datatype OrderItem = OrderItem(productId: ProductId, quantity: int, totalPrice: int)

  datatype Order = Order(
    orderId: OrderId,
    orderStatus: string,
    paymentStatus: string,
    totalAmount: int,
    billingAddress: string,
    billingPhone: string,
    billingName: string,
    orderDate: int,
    deliveredDate: Option<int>,
    user: UserId,
    orderItems: seq<OrderItem>)

  /** A refresh-token row; id is the generated identity column. */
  datatype RefreshToken = RefreshToken(id: nat, token: string, expiresDate: int, user: UserId)

  /** What quantity units of a product cost at its current price and discount. */
  function LineTotal(quantity: int, product: Product): int {
    quantity * (product.price - product.discountedPrice)
  }
}
