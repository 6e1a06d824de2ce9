/**
  The database behind the services: one table per repository, updated in
  place by the services, and the invariants every modelled operation keeps.
*/
module Repositories {
  import opened Results
  import opened Entities
  import opened CartItems
  import opened OrderLines
  import TokenTable

  predicate UsersValid(users: map<UserId, User>) {
    && (forall u :: u in users ==> users[u].userId == u)
    && (forall a, b :: a in users && b in users && users[a].email == users[b].email ==> a == b)
  }

  predicate ProductsValid(products: map<ProductId, Product>) {
    forall p :: p in products ==> products[p].productId == p
  }

  /** A cart's items: positive quantities, known products, ids below the identity counter, no duplicate product or id. */
  predicate ItemsValid(items: seq<CartItem>, products: map<ProductId, Product>, nextItemId: nat) {
    && (forall i :: 0 <= i < |items| ==> items[i].quantity > 0 && items[i].itemId < nextItemId)
    && AllPriced(items, products)
    && DistinctProducts(items)
    && DistinctIds(items)
  }

  predicate CartIdsUnique(carts: map<UserId, Cart>) {
    forall a, b :: a in carts && b in carts && carts[a].cartId == carts[b].cartId ==> a == b
  }

  /** Carts are keyed by their owner (one cart per user) and cart ids are unique. */
  predicate CartsValid(carts: map<UserId, Cart>, products: map<ProductId, Product>, nextItemId: nat) {
    && (forall u :: u in carts ==> carts[u].user == u && ItemsValid(carts[u].items, products, nextItemId))
    && CartIdsUnique(carts)
  }

  /** Storing one cart, with a higher or equal identity counter, keeps the cart table valid. */
  lemma CartsValidAfterStore(carts: map<UserId, Cart>, products: map<ProductId, Product>, nextItemId: nat,
                             newNextItemId: nat, u: UserId, c: Cart)
    requires CartsValid(carts, products, nextItemId) && nextItemId <= newNextItemId
    requires c.user == u && ItemsValid(c.items, products, newNextItemId)
    requires forall v :: v in carts && v != u ==> carts[v].cartId != c.cartId
    ensures CartsValid(carts[u := c], products, newNextItemId)
  {
    var carts' := carts[u := c];
    forall v | v in carts' ensures carts'[v].user == v && ItemsValid(carts'[v].items, products, newNextItemId) {
      if v != u {
        var items := carts[v].items;
        assert ItemsValid(items, products, nextItemId);
        assert forall i :: 0 <= i < |items| ==> items[i].itemId < newNextItemId;
      }
    }
  }

  predicate OrdersValid(orders: map<OrderId, Order>) {
    forall o :: o in orders ==> orders[o].orderId == o && OrderConsistent(orders[o])
  }

  predicate TokensValid(tokens: TokenTable.Table, nextTokenId: nat, users: map<UserId, User>) {
    && TokenTable.TableValid(tokens, nextTokenId)
    && (forall k :: k in tokens ==> tokens[k].user in users)
  }

  /** A rotation for a known user keeps the token table valid. */
  lemma TokensValidAfterRotate(tokens: TokenTable.Table, nextTokenId: nat, users: map<UserId, User>,
                               user: UserId, newValue: string, now: int)
    requires TokensValid(tokens, nextTokenId, users) && user in users
    requires !TokenTable.ValueInUse(tokens, newValue)
    ensures TokensValid(TokenTable.Rotate(tokens, user, newValue, now, nextTokenId),
                        TokenTable.NextIdAfterRotate(tokens, user, nextTokenId), users)
  {
    TokenTable.RotateKeepsValid(tokens, nextTokenId, user, newValue, now);
    TokenTable.RotateEffect(tokens, nextTokenId, user, newValue, now);
  }

  /** CartRepository.findById: the owner of the cart with this id, if any. */
  function CartWithId(carts: map<UserId, Cart>, cartId: CartId): (r: Option<UserId>)
    requires CartIdsUnique(carts)
    ensures r.Some? <==> exists u :: u in carts && carts[u].cartId == cartId
    ensures r.Some? ==> r.value in carts && carts[r.value].cartId == cartId
  {
    if exists u :: u in carts && carts[u].cartId == cartId then
      var u :| u in carts && carts[u].cartId == cartId; Some(u)
    else None
  }

  /** UserRepositories.findByEmail. */
  function UserByEmail(users: map<UserId, User>, email: string): (r: Option<UserId>)
    requires UsersValid(users)
    ensures r.Some? <==> exists u :: u in users && users[u].email == email
    ensures r.Some? ==> r.value in users && users[r.value].email == email
  {
    if exists u :: u in users && users[u].email == email then
      var u :| u in users && users[u].email == email; Some(u)
    else None
  }

  /** CartItemRepository.findById: is there a stored item with this id, in any cart. */
  predicate ItemStored(carts: map<UserId, Cart>, itemId: nat) {
    exists u :: u in carts && HasItem(carts[u].items, itemId)
  }

  class Store {
    var users: map<UserId, User>
    var products: map<ProductId, Product>
    var carts: map<UserId, Cart>
    var nextItemId: nat
    var orders: map<OrderId, Order>
    var tokens: TokenTable.Table
    var nextTokenId: nat

    ghost predicate Valid()
      reads this
    {
      && UsersValid(users)
      && ProductsValid(products)
      && CartsValid(carts, products, nextItemId)
      && OrdersValid(orders)
      && TokensValid(tokens, nextTokenId, users)
    }

    /** A database holding the given users and catalog, and no carts, orders or tokens. */
    constructor (users: map<UserId, User>, products: map<ProductId, Product>)
      requires UsersValid(users) && ProductsValid(products)
      ensures Valid()
      ensures this.users == users && this.products == products
      ensures carts == map[] && orders == map[] && tokens == map[]
    {
      this.users := users;
      this.products := products;
      carts := map[];
      nextItemId := 0;
      orders := map[];
      tokens := map[];
      nextTokenId := 0;
    }
  }
}
