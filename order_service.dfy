/**
  The order service: checkout of a non-empty cart into an order priced at the
  current catalog, then status and billing updates, removal and listing.
*/
module OrderService {
  import opened Results
  import opened Entities
  import opened OrderLines
  import opened Repositories

  /**
    createOrder. orderId and now stand for the random UUID and the clock. The
    cart is looked up by its id alone: it need not be the user's own cart. The
    cart is emptied before the order is stored, as two separate writes.
  */
  method CreateOrder(store: Store, draft: OrderDraft, userId: UserId, cartId: CartId, orderId: OrderId, now: int)
    returns (r: Result<Order>)
    requires store.Valid()
    requires orderId !in store.orders
    modifies store`carts, store`orders
    ensures store.Valid()
    ensures userId !in store.users || CartWithId(old(store.carts), cartId).None? ==> r == Err(ResourceNotFound)
    ensures (userId in store.users && CartWithId(old(store.carts), cartId).Some?
             && old(store.carts)[CartWithId(old(store.carts), cartId).value].items == []) ==> r == Err(BadApiRequest)
    ensures r.Err? ==> store.carts == old(store.carts) && store.orders == old(store.orders)
    ensures r.Ok? <==> userId in store.users && CartWithId(old(store.carts), cartId).Some?
                       && old(store.carts)[CartWithId(old(store.carts), cartId).value].items != []
    ensures r.Ok? ==>
      var owner := CartWithId(old(store.carts), cartId).value;
      var cart := old(store.carts)[owner];
      && AllPriced(cart.items, store.products)
      && r.value == NewOrder(draft, orderId, userId, now, OrderLinesOf(cart.items, store.products))
      && store.orders == old(store.orders)[orderId := r.value]
      && store.carts == old(store.carts)[owner := cart.(items := [])]
  {
    if userId !in store.users {
      return Err(ResourceNotFound);
    }
    var found := CartWithId(store.carts, cartId);
    if found.None? {
      return Err(ResourceNotFound);
    }
    var owner := found.value;
    var cart := store.carts[owner];
    if |cart.items| == 0 {
      return Err(BadApiRequest);
    }
    var lines, amount := BuildOrderLines(cart.items, store.products);
    var order := Order(orderId, draft.orderStatus, draft.paymentStatus, amount,
                       draft.billingAddress, draft.billingPhone, draft.billingName,
                       now, None, userId, lines);
    NewOrderConsistent(draft, orderId, userId, now, cart.items, store.products);
    CartsValidAfterStore(store.carts, store.products, store.nextItemId, store.nextItemId, owner, cart.(items := []));
    store.carts := store.carts[owner := cart.(items := [])];
    store.orders := store.orders[orderId := order];
    r := Ok(order);
  }

  /** removeOrder: deletes the order with its items. */
  method RemoveOrder(store: Store, orderId: OrderId) returns (r: Result<()>)
    requires store.Valid()
    modifies store`orders
    ensures store.Valid()
    ensures r.Ok? <==> orderId in old(store.orders)
    ensures r.Err? ==> r.error == ResourceNotFound && store.orders == old(store.orders)
    ensures r.Ok? ==> store.orders == old(store.orders) - {orderId}
  {
    if orderId !in store.orders {
      return Err(ResourceNotFound);
    }
    store.orders := store.orders - {orderId};
    r := Ok(());
  }

  /** updateOrder: only the two statuses, the delivery date and the three billing fields change. */
  method UpdateOrder(store: Store, draft: OrderDraft, orderId: OrderId) returns (r: Result<Order>)
    requires store.Valid()
    modifies store`orders
    ensures store.Valid()
    ensures r.Ok? <==> orderId in old(store.orders)
    ensures r.Err? ==> r.error == ResourceNotFound && store.orders == old(store.orders)
    ensures r.Ok? ==>
      && r.value == ApplyUpdate(old(store.orders)[orderId], draft)
      && store.orders == old(store.orders)[orderId := r.value]
  {
    if orderId !in store.orders {
      return Err(ResourceNotFound);
    }
    var order := store.orders[orderId];
    ApplyUpdateKeepsConsistent(order, draft);
    order := order.(orderStatus := draft.orderStatus);
    order := order.(paymentStatus := draft.paymentStatus);
    order := order.(deliveredDate := draft.deliveredDate);
    order := order.(billingAddress := draft.billingAddress);
    order := order.(billingName := draft.billingName);
    order := order.(billingPhone := draft.billingPhone);
    store.orders := store.orders[orderId := order];
    r := Ok(order);
  }

  /** getAllOrderOfUser: the orders placed by a known user, possibly none. */
  function GetAllOrderOfUser(store: Store, userId: UserId): (r: Result<set<Order>>)
    reads store
    requires store.Valid()
    ensures r.Ok? <==> userId in store.users
    ensures r.Err? ==> r.error == ResourceNotFound
    ensures r.Ok? ==> forall o :: o in r.value <==> o in store.orders.Values && o.user == userId
    ensures r.Ok? ==> forall o :: o in r.value ==> OrderConsistent(o)
  {
    if userId !in store.users then Err(ResourceNotFound)
    else Ok(set o | o in store.orders.Values && o.user == userId)
  }
}
