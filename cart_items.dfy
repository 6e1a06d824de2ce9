/**
  The rules addItemToCart and removeItemFromCart apply to a cart's item list:
  merge-or-append on add, removal of the first item with a given id.
*/
module CartItems {
  import opened Text
  import opened Entities

  /** An item is for the requested product when the product ids are equal ignoring case. */
  predicate Matches(item: CartItem, productId: ProductId) {
    EqualsIgnoreCase(item.productId, productId)
  }

  predicate HasProduct(items: seq<CartItem>, productId: ProductId) {
    exists i :: 0 <= i < |items| && Matches(items[i], productId)
  }

  /** The per-item step of the merge: a matching item takes the new quantity and line total. */
  function Refresh(item: CartItem, productId: ProductId, quantity: int, total: int): CartItem {
    if Matches(item, productId) then item.(quantity := quantity, totalPrice := total) else item
  }

  function RefreshAll(items: seq<CartItem>, productId: ProductId, quantity: int, total: int): seq<CartItem> {
    seq(|items|, i requires 0 <= i < |items| => Refresh(items[i], productId, quantity, total))
  }

  /**
    The merge-or-append rule: when some item is for the product, every such
    item has its quantity replaced; otherwise one new item is appended.
  */
  function AddItem(items: seq<CartItem>, productId: ProductId, quantity: int, total: int, newId: nat): seq<CartItem> {
    if HasProduct(items, productId) then RefreshAll(items, productId, quantity, total)
    else items + [CartItem(newId, productId, quantity, total)]
  }

  /** At most one item per product, products compared ignoring case. */
  predicate DistinctProducts(items: seq<CartItem>) {
    forall i, j :: 0 <= i < j < |items| ==> !EqualsIgnoreCase(items[i].productId, items[j].productId)
  }

  predicate DistinctIds(items: seq<CartItem>) {
    forall i, j :: 0 <= i < j < |items| ==> items[i].itemId != items[j].itemId
  }

  /**
    The stream pass of addItemToCart: rewrites the matching items and raises
    the flag when one was found.
  */
  method RefreshMatching(items: seq<CartItem>, productId: ProductId, quantity: int, total: int)
    returns (result: seq<CartItem>, updated: bool)
    ensures result == RefreshAll(items, productId, quantity, total)
    ensures updated <==> HasProduct(items, productId)
  {
    result := [];
    updated := false;
    var i := 0;
    while i < |items|
      invariant 0 <= i <= |items|
      invariant |result| == i
      invariant forall k :: 0 <= k < i ==> result[k] == Refresh(items[k], productId, quantity, total)
      invariant updated <==> exists k :: 0 <= k < i && Matches(items[k], productId)
    {
      var item := items[i];
      if EqualsIgnoreCase(item.productId, productId) {
        item := item.(quantity := quantity, totalPrice := total);
        updated := true;
      }
      result := result + [item];
      i := i + 1;
    }
  }

  /** What one add does to each position: matching items are rewritten, others kept, and a new item appended only when none matched. */
  lemma AddItemEffect(items: seq<CartItem>, productId: ProductId, quantity: int, total: int, newId: nat)
    ensures var r := AddItem(items, productId, quantity, total, newId);
      && |r| == (if HasProduct(items, productId) then |items| else |items| + 1)
      && (forall i :: 0 <= i < |items| && !Matches(items[i], productId) ==> r[i] == items[i])
      && (forall i :: 0 <= i < |items| && Matches(items[i], productId) ==>
            r[i] == items[i].(quantity := quantity, totalPrice := total))
      && (!HasProduct(items, productId) ==> r[|items|] == CartItem(newId, productId, quantity, total))
  {
  }

  /** Adding never creates a second item for a product. */
  lemma {:induction false} AddItemKeepsProductsDistinct(items: seq<CartItem>, productId: ProductId, quantity: int, total: int, newId: nat)
    requires DistinctProducts(items)
    ensures DistinctProducts(AddItem(items, productId, quantity, total, newId))
  {
  }

  /** A fresh id keeps item ids distinct. */
  lemma AddItemKeepsIdsDistinct(items: seq<CartItem>, productId: ProductId, quantity: int, total: int, newId: nat)
    requires DistinctIds(items)
    requires forall i :: 0 <= i < |items| ==> items[i].itemId != newId
    ensures DistinctIds(AddItem(items, productId, quantity, total, newId))
  {
  }

  /** After an add, exactly one item is for the product, carrying the requested quantity and total. */
  lemma AddItemSingleMatch(items: seq<CartItem>, productId: ProductId, quantity: int, total: int, newId: nat)
    requires DistinctProducts(items)
    ensures var r := AddItem(items, productId, quantity, total, newId);
      exists k :: 0 <= k < |r| && Matches(r[k], productId) && r[k].quantity == quantity && r[k].totalPrice == total
        && forall j :: 0 <= j < |r| && j != k ==> !Matches(r[j], productId)
  {
    var r := AddItem(items, productId, quantity, total, newId);
    if HasProduct(items, productId) {
      var k :| 0 <= k < |items| && Matches(items[k], productId);
      forall j | 0 <= j < |r| && j != k ensures !Matches(r[j], productId) {
        if Matches(r[j], productId) {
          assert Matches(items[j], productId);
          EqualsIgnoreCaseEquivalence(items[j].productId, productId, items[k].productId);
          EqualsIgnoreCaseEquivalence(items[k].productId, productId, items[j].productId);
          assert false;
        }
      }
      assert Matches(r[k], productId) && r[k].quantity == quantity && r[k].totalPrice == total;
    } else {
      EqualsIgnoreCaseEquivalence(productId, productId, productId);
      assert Matches(r[|items|], productId);
    }
  }

  /** Adding the same product and quantity twice leaves the list as adding it once. */
  lemma AddItemIdempotent(items: seq<CartItem>, productId: ProductId, quantity: int, total: int, id1: nat, id2: nat)
    ensures var once := AddItem(items, productId, quantity, total, id1);
      AddItem(once, productId, quantity, total, id2) == once
  {
    var once := AddItem(items, productId, quantity, total, id1);
    if HasProduct(items, productId) {
      var k :| 0 <= k < |items| && Matches(items[k], productId);
      assert Matches(once[k], productId);
    } else {
      EqualsIgnoreCaseEquivalence(productId, productId, productId);
      assert Matches(once[|items|], productId);
    }
    var twice := AddItem(once, productId, quantity, total, id2);
    assert |twice| == |once|;
    forall i | 0 <= i < |once| ensures twice[i] == once[i] {
    }
  }

  predicate HasItem(items: seq<CartItem>, itemId: nat) {
    exists i :: 0 <= i < |items| && items[i].itemId == itemId
  }

  /** The position of the first item with the given id, or -1. */
  function IndexOfItem(items: seq<CartItem>, itemId: nat): (k: int)
    ensures -1 <= k < |items|
    ensures k == -1 <==> !HasItem(items, itemId)
    ensures 0 <= k ==> items[k].itemId == itemId && forall j :: 0 <= j < k ==> items[j].itemId != itemId
  {
    if items == [] then -1
    else if items[0].itemId == itemId then 0
    else
      var k := IndexOfItem(items[1..], itemId);
      if k == -1 then -1 else k + 1
  }

  /** List.remove(Object): drops the first item with the given id, if any. */
  function RemoveItem(items: seq<CartItem>, itemId: nat): seq<CartItem> {
    var k := IndexOfItem(items, itemId);
    if k < 0 then items else items[..k] + items[k + 1..]
  }

  /** With distinct ids, removing a present item drops exactly that item and keeps all the others. */
  lemma RemoveItemEffect(items: seq<CartItem>, itemId: nat)
    requires DistinctIds(items)
    requires HasItem(items, itemId)
    ensures var r := RemoveItem(items, itemId);
      && |r| == |items| - 1
      && !HasItem(r, itemId)
      && multiset(r) + multiset{items[IndexOfItem(items, itemId)]} == multiset(items)
  {
    var k := IndexOfItem(items, itemId);
    var r := RemoveItem(items, itemId);
    assert items == items[..k] + [items[k]] + items[k + 1..];
    forall i | 0 <= i < |r| ensures r[i].itemId != itemId {
      if i >= k {
        assert r[i] == items[i + 1];
      }
    }
  }

  /**
    Every item left after a removal was in the list before, and the items
    before and after the removed one keep their order.
  */
  lemma RemoveItemKeepsItems(items: seq<CartItem>, itemId: nat)
    ensures forall i :: 0 <= i < |RemoveItem(items, itemId)| ==> RemoveItem(items, itemId)[i] in items
    ensures HasItem(items, itemId) ==>
      var k := IndexOfItem(items, itemId);
      forall i :: 0 <= i < |RemoveItem(items, itemId)| ==>
        RemoveItem(items, itemId)[i] == items[if i < k then i else i + 1]
  {
    var k := IndexOfItem(items, itemId);
    if k >= 0 {
      var r := RemoveItem(items, itemId);
      forall i | 0 <= i < |r| ensures r[i] == items[if i < k then i else i + 1] && r[i] in items {
        assert r[i] == items[if i < k then i else i + 1];
      }
    }
  }

  /** Removal keeps both distinctness invariants: what remains is a subsequence. */
  lemma RemoveItemKeepsDistinct(items: seq<CartItem>, itemId: nat)
    requires DistinctIds(items) && DistinctProducts(items)
    ensures DistinctIds(RemoveItem(items, itemId)) && DistinctProducts(RemoveItem(items, itemId))
  {
    var k := IndexOfItem(items, itemId);
    if k >= 0 {
      var r := RemoveItem(items, itemId);
      forall i, j | 0 <= i < j < |r|
        ensures r[i].itemId != r[j].itemId
        ensures !EqualsIgnoreCase(r[i].productId, r[j].productId)
      {
        var i' := if i < k then i else i + 1;
        var j' := if j < k then j else j + 1;
        assert r[i] == items[i'] && r[j] == items[j'];
      }
    }
  }
}
