/**
  The cart service: one lazily created cart per user, merge-or-append on add,
  guarded removal of one item, and clearing.
*/
module CartService {
  import opened Results
  import opened Entities
  import opened CartItems
  import opened Repositories

  /** The user's stored cart, or the empty cart addItemToCart would create. */
  function CartOrNew(carts: map<UserId, Cart>, userId: UserId, newCartId: CartId, now: int): (c: Cart)
    ensures userId in carts ==> c == carts[userId]
    ensures userId !in carts ==> c.cartId == newCartId && c.createAt == now && c.user == userId && c.items == []
  {
    if userId in carts then carts[userId] else Cart(newCartId, now, userId, [])
  }

  /**
    addItemToCart. newCartId and now stand for the random UUID and the clock
    read when a cart has to be created; the item id comes from the identity
    counter.
  */
  method AddItemToCart(store: Store, userId: UserId, productId: ProductId, quantity: int, newCartId: CartId, now: int)
    returns (r: Result<Cart>)
    requires store.Valid()
    requires forall u :: u in store.carts ==> store.carts[u].cartId != newCartId
    modifies store`carts, store`nextItemId
    ensures store.Valid()
    ensures quantity <= 0 ==> r == Err(BadApiRequest)
    ensures quantity > 0 && (productId !in store.products || userId !in store.users) ==> r == Err(ResourceNotFound)
    ensures r.Ok? <==> quantity > 0 && productId in store.products && userId in store.users
    ensures r.Err? ==> store.carts == old(store.carts) && store.nextItemId == old(store.nextItemId)
    ensures r.Ok? ==>
      var before := CartOrNew(old(store.carts), userId, newCartId, now);
      var total := LineTotal(quantity, store.products[productId]);
      && r.value == before.(items := AddItem(before.items, productId, quantity, total, old(store.nextItemId)))
      && store.carts == old(store.carts)[userId := r.value]
      && store.nextItemId == if HasProduct(before.items, productId) then old(store.nextItemId) else old(store.nextItemId) + 1
  {
    if quantity <= 0 {
      return Err(BadApiRequest);
    }
    if productId !in store.products {
      return Err(ResourceNotFound);
    }
    var product := store.products[productId];
    if userId !in store.users {
      return Err(ResourceNotFound);
    }
    var cart: Cart;
    if userId in store.carts {
      cart := store.carts[userId];
    } else {
      cart := Cart(newCartId, now, userId, []);
    }
    var total := LineTotal(quantity, product);
    var items, updated := RefreshMatching(cart.items, productId, quantity, total);
    ghost var oldItems := cart.items;
    AddItemKeepsProductsDistinct(oldItems, productId, quantity, total, store.nextItemId);
    AddItemKeepsIdsDistinct(oldItems, productId, quantity, total, store.nextItemId);
    if !updated {
      cart := cart.(items := cart.items + [CartItem(store.nextItemId, productId, quantity, total)]);
      store.nextItemId := store.nextItemId + 1;
    } else {
      cart := cart.(items := items);
    }
    assert cart.items == AddItem(oldItems, productId, quantity, total, old(store.nextItemId));
    CartsValidAfterStore(store.carts, store.products, old(store.nextItemId), store.nextItemId, userId, cart);
    store.carts := store.carts[userId := cart];
    r := Ok(cart);
  }

  /** removeItemFromCart: the item must exist and be in this user's cart. */
  method RemoveItemFromCart(store: Store, userId: UserId, itemId: nat) returns (r: Result<()>)
    requires store.Valid()
    modifies store`carts
    ensures store.Valid()
    ensures userId !in store.users || userId !in old(store.carts) || !ItemStored(old(store.carts), itemId) ==>
      r == Err(ResourceNotFound)
    ensures (userId in store.users && userId in old(store.carts) && ItemStored(old(store.carts), itemId)
             && !HasItem(old(store.carts)[userId].items, itemId)) ==> r == Err(BadApiRequest)
    ensures r.Ok? <==> userId in store.users && userId in old(store.carts) && HasItem(old(store.carts)[userId].items, itemId)
    ensures r.Err? ==> store.carts == old(store.carts)
    ensures r.Ok? ==>
      var cart := old(store.carts)[userId];
      store.carts == old(store.carts)[userId := cart.(items := RemoveItem(cart.items, itemId))]
  {
    if userId !in store.users {
      return Err(ResourceNotFound);
    }
    if userId !in store.carts {
      return Err(ResourceNotFound);
    }
    var cart := store.carts[userId];
    if !(exists u :: u in store.carts && HasItem(store.carts[u].items, itemId)) {
      return Err(ResourceNotFound);
    }
    if HasItem(cart.items, itemId) {
      RemoveItemKeepsDistinct(cart.items, itemId);
      RemoveItemKeepsItems(cart.items, itemId);
      cart := cart.(items := RemoveItem(cart.items, itemId));
      CartsValidAfterStore(store.carts, store.products, store.nextItemId, store.nextItemId, userId, cart);
      store.carts := store.carts[userId := cart];
      r := Ok(());
    } else {
      r := Err(BadApiRequest);
    }
  }

  /** clearCart: the user's cart keeps its id and owner and loses every item. */
  method ClearCart(store: Store, userId: UserId) returns (r: Result<()>)
    requires store.Valid()
    modifies store`carts
    ensures store.Valid()
    ensures r.Ok? <==> userId in store.users && userId in old(store.carts)
    ensures r.Err? ==> r.error == ResourceNotFound && store.carts == old(store.carts)
    ensures r.Ok? ==> store.carts == old(store.carts)[userId := old(store.carts)[userId].(items := [])]
  {
    if userId !in store.users || userId !in store.carts {
      return Err(ResourceNotFound);
    }
    store.carts := store.carts[userId := store.carts[userId].(items := [])];
    r := Ok(());
  }

  /** getCartByUser: the user's own cart; fails, and creates nothing, when there is none. */
  function GetCartByUser(store: Store, userId: UserId): (r: Result<Cart>)
    reads store
    requires store.Valid()
    ensures r.Ok? <==> userId in store.users && userId in store.carts
    ensures r.Err? ==> r.error == ResourceNotFound
    ensures r.Ok? ==> r.value == store.carts[userId]
    ensures r.Ok? ==> r.value.user == userId && ItemsValid(r.value.items, store.products, store.nextItemId)
  {
    if userId !in store.users || userId !in store.carts then Err(ResourceNotFound)
    else Ok(store.carts[userId])
  }
}
