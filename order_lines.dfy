/**
  How createOrder turns cart items into order items and an order total, and
  which order fields updateOrder may overwrite.
*/
module OrderLines {
  import opened Results
  import opened Entities

  /** Every item's product is in the catalog, so its current price can be read. */
  predicate AllPriced(items: seq<CartItem>, products: map<ProductId, Product>) {
    forall i :: 0 <= i < |items| ==> items[i].productId in products
  }

  /** One order item: same product and quantity, total re-derived from the product's current pricing. */
  function OrderLine(item: CartItem, products: map<ProductId, Product>): OrderItem
    requires item.productId in products
  {
    OrderItem(item.productId, item.quantity, LineTotal(item.quantity, products[item.productId]))
  }

  function OrderLinesOf(items: seq<CartItem>, products: map<ProductId, Product>): seq<OrderItem>
    requires AllPriced(items, products)
  {
    seq(|items|, i requires 0 <= i < |items| => OrderLine(items[i], products))
  }

  /** The sum of the order items' totals. */
  function SumTotals(lines: seq<OrderItem>): int {
    if lines == [] then 0 else SumTotals(lines[..|lines| - 1]) + lines[|lines| - 1].totalPrice
  }

  /** An order's total is the sum of its lines; order items are never empty. */
  predicate OrderConsistent(o: Order) {
    |o.orderItems| > 0 && o.totalAmount == SumTotals(o.orderItems)
  }

  /**
    The mapping pass of createOrder: builds the order items one cart item at a
    time and accumulates their totals.
  */
  method BuildOrderLines(items: seq<CartItem>, products: map<ProductId, Product>)
    returns (lines: seq<OrderItem>, amount: int)
    requires AllPriced(items, products)
    ensures lines == OrderLinesOf(items, products)
    ensures amount == SumTotals(lines)
  {
    lines := [];
    amount := 0;
    var i := 0;
    while i < |items|
      invariant 0 <= i <= |items|
      invariant lines == OrderLinesOf(items[..i], products)
      invariant amount == SumTotals(lines)
    {
      var line := OrderLine(items[i], products);
      assert items[..i + 1] == items[..i] + [items[i]];
      lines := lines + [line];
      assert lines[..|lines| - 1] == lines[..i];
      amount := amount + line.totalPrice;
      i := i + 1;
    }
    assert items[..i] == items;
  }

  /** One order item per cart item, in order, with the same product and quantity and the current line total. */
  lemma OrderLinesMatchCart(items: seq<CartItem>, products: map<ProductId, Product>)
    requires AllPriced(items, products)
    ensures var lines := OrderLinesOf(items, products);
      && |lines| == |items|
      && forall i :: 0 <= i < |items| ==>
           && lines[i].productId == items[i].productId
           && lines[i].quantity == items[i].quantity
           && lines[i].totalPrice == items[i].quantity * (products[items[i].productId].price - products[items[i].productId].discountedPrice)
  {
  }

  /** The cached totals of the cart items play no part: only product and quantity do. */
  lemma OrderLinesIgnoreCachedTotals(a: seq<CartItem>, b: seq<CartItem>, products: map<ProductId, Product>)
    requires AllPriced(a, products) && |a| == |b|
    requires forall i :: 0 <= i < |a| ==> a[i].productId == b[i].productId && a[i].quantity == b[i].quantity
    ensures AllPriced(b, products)
    ensures OrderLinesOf(a, products) == OrderLinesOf(b, products)
  {
  }

  /** The order total is the sum over the cart of quantity times (price minus discount) at checkout time. */
  lemma {:induction false} OrderTotalIsCurrentPrice(items: seq<CartItem>, products: map<ProductId, Product>)
    requires AllPriced(items, products)
    ensures SumTotals(OrderLinesOf(items, products)) == CartValue(items, products)
    decreases |items|
  {
    if items != [] {
      var init := items[..|items| - 1];
      OrderTotalIsCurrentPrice(init, products);
      assert OrderLinesOf(items, products)[..|items| - 1] == OrderLinesOf(init, products);
    }
  }

  /** The reference: the value of the cart at current prices, item by item. */
  function CartValue(items: seq<CartItem>, products: map<ProductId, Product>): int
    requires AllPriced(items, products)
  {
    if items == [] then 0
    else
      var last := items[|items| - 1];
      CartValue(items[..|items| - 1], products) + LineTotal(last.quantity, products[last.productId])
  }

  /** The fields of the order draft that createOrder and updateOrder read. */
  datatype OrderDraft = OrderDraft(
    orderStatus: string,
    paymentStatus: string,
    billingAddress: string,
    billingPhone: string,
    billingName: string,
    deliveredDate: Option<int>)

  const DEFAULT_ORDER_STATUS: string := "PENDING"
  const DEFAULT_PAYMENT_STATUS: string := "NOT_PAID"

  /** A draft whose statuses were left at the defaults the draft class declares. */
  function DefaultDraft(billingAddress: string, billingPhone: string, billingName: string): OrderDraft {
    OrderDraft(DEFAULT_ORDER_STATUS, DEFAULT_PAYMENT_STATUS, billingAddress, billingPhone, billingName, None)
  }

  /** The order createOrder builds: server-chosen id and date, no delivery date, statuses and billing from the draft. */
  function NewOrder(draft: OrderDraft, orderId: OrderId, user: UserId, now: int, lines: seq<OrderItem>): Order {
    Order(orderId, draft.orderStatus, draft.paymentStatus, SumTotals(lines),
          draft.billingAddress, draft.billingPhone, draft.billingName,
          now, None, user, lines)
  }

  /** An order placed from a draft that kept its defaults starts pending and not paid. */
  lemma DefaultDraftStatuses(billingAddress: string, billingPhone: string, billingName: string,
                             orderId: OrderId, user: UserId, now: int, lines: seq<OrderItem>)
    ensures var o := NewOrder(DefaultDraft(billingAddress, billingPhone, billingName), orderId, user, now, lines);
      && o.orderStatus == "PENDING" && o.paymentStatus == "NOT_PAID"
      && o.billingAddress == billingAddress && o.billingPhone == billingPhone && o.billingName == billingName
      && o.deliveredDate == None
  {
  }

  /** updateOrder's six setters. */
  function ApplyUpdate(o: Order, draft: OrderDraft): (r: Order)
    ensures r.orderId == o.orderId && r.orderItems == o.orderItems && r.totalAmount == o.totalAmount
    ensures r.orderDate == o.orderDate && r.user == o.user
  {
    o.(orderStatus := draft.orderStatus, paymentStatus := draft.paymentStatus,
       deliveredDate := draft.deliveredDate, billingAddress := draft.billingAddress,
       billingName := draft.billingName, billingPhone := draft.billingPhone)
  }

  /** A new order from a non-empty cart is consistent, and carries the draft's statuses and no delivery date. */
  lemma NewOrderConsistent(draft: OrderDraft, orderId: OrderId, user: UserId, now: int,
                           items: seq<CartItem>, products: map<ProductId, Product>)
    requires AllPriced(items, products) && |items| > 0
    ensures var o := NewOrder(draft, orderId, user, now, OrderLinesOf(items, products));
      && OrderConsistent(o)
      && o.totalAmount == CartValue(items, products)
      && o.orderDate == now && o.deliveredDate == None && o.user == user && o.orderId == orderId
      && o.orderStatus == draft.orderStatus && o.paymentStatus == draft.paymentStatus
  {
    OrderTotalIsCurrentPrice(items, products);
  }

  /** An update keeps an order consistent. */
  lemma ApplyUpdateKeepsConsistent(o: Order, draft: OrderDraft)
    requires OrderConsistent(o)
    ensures OrderConsistent(ApplyUpdate(o, draft))
  {
  }
}
