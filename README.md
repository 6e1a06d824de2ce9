# Shop store core in Dafny

A model of the stateful core of an online-store backend: the per-user shopping
cart, checkout of a cart into an order, the refresh-token session store, and two
small upload checks (the image-extension whitelist and the upload size check).

The database is one `Store` object (module `Repositories`) with a table per
repository: users, products, carts keyed by their owner, orders keyed by id, and
refresh-token rows keyed by their identity column, plus the identity counters
for cart items and token rows. `Store.Valid()` collects the invariants that every
modelled operation keeps: one cart per user, unique cart ids, at most one item
per product in a cart (ids compared ignoring case), distinct item ids, an
order's total equal to the sum of its lines, at most one token row per user and
unique token values.

The services are modules of methods over that store. Each state-changing method
states its whole effect: the result, the new table as a function of the old one,
and the unchanged tables through its field-level `modifies` clause. The rules
those functions encode are kept in pure modules with the lemmas about them:

- `CartItems`: merge-or-append on add, removal of the first item with an id.
- `OrderLines`: order lines priced from the current catalog, the order total,
  and the six fields an update may overwrite.
- `TokenTable`: rotation in place, lookup by value, deletion on expiry.

The two Java stream passes are loops: the merge pass with its "updated" flag
(`CartItems.RefreshMatching`) and the order-line pass with its running amount
(`OrderLines.BuildOrderLines`).

Modelling choices:

- Prices are whole minor units (`int`) and instants are whole seconds.
- Random UUIDs, the clock and the database identity columns are parameters or
  counters. A UUID is required not to collide with a stored one.
- An entity that the source loads, changes through setters and saves is a
  datatype value whose row is replaced in its table.

Where the design text and the code disagree, the model follows the code:

- `createOrder` looks the cart up by id only and never checks that it belongs to
  the user. `OrderService.CreateOrder` clears the cart's owner's items, who may
  be another user.
- `createOrder` clears and saves the cart, then saves the order, as two
  separate writes. The model performs them in that order and claims no
  atomicity.
- An expired refresh token fails with the same not-found exception as a missing
  one, not a distinct "token expired" error.
- Cart items are matched to the requested product ignoring case. An item whose
  product id differs only in case from the requested id is rewritten with the
  requested product's pricing.
- The upload size limit is 10 MiB, although the message says 2MB.

## Model

| member | source | states |
|---|---|---|
| Text.EqualsIgnoreCaseIffLowerEqual | src/main/java/rj/com/store/services/servicesimp/CartServiceImp.java:65 | the case-insensitive product-id comparison holds exactly when the lower-cased ids are equal |
| Text.EqualsIgnoreCaseEquivalence | src/main/java/rj/com/store/services/servicesimp/CartServiceImp.java:65 | the comparison is reflexive, symmetric and transitive, so "one item per product" is well defined |
| Text.EqualsIgnoreCase | src/main/java/rj/com/store/services/servicesimp/CartServiceImp.java:65 | equalsIgnoreCase on product ids and extensions; EqualsIgnoreCaseIffLowerEqual shows it is equality after lower-casing, and EqualsIgnoreCaseEquivalence that it is an equivalence |
| Text.LastIndexOf | src/main/java/rj/com/store/services/servicesimp/FileServiceImp.java:26 | the result is -1 exactly when the character is absent, and otherwise the position of its last occurrence |
| CartItems.RefreshMatching | src/main/java/rj/com/store/services/servicesimp/CartServiceImp.java:62-72 | the stream pass rewrites each matching item to the new quantity and total, keeps the others, and raises the flag exactly when some item matched |
| CartItems.RefreshAll | src/main/java/rj/com/store/services/servicesimp/CartServiceImp.java:64-72 | the stream map: RefreshMatching is proved to compute it, and AddItemEffect shows it rewrites exactly the matching items and keeps the rest |
| CartItems.AddItem | src/main/java/rj/com/store/services/servicesimp/CartServiceImp.java:64-84 | merge-or-append: AddItemEffect, AddItemSingleMatch and AddItemIdempotent state its effect, and AddItemKeepsProductsDistinct and AddItemKeepsIdsDistinct the invariants it keeps |
| CartItems.AddItemEffect | src/main/java/rj/com/store/services/servicesimp/CartServiceImp.java:64-84 | a match replaces the quantity (not adds to it) and keeps the item count; with no match exactly one item with the requested quantity and total is appended; items for other products are untouched |
| CartItems.AddItemKeepsProductsDistinct | src/main/java/rj/com/store/services/servicesimp/CartServiceImp.java:64-81 | an add never creates a second item for a product |
| CartItems.AddItemKeepsIdsDistinct | src/main/java/rj/com/store/services/servicesimp/CartServiceImp.java:75-81 | an appended item with a fresh id keeps item ids distinct |
| CartItems.AddItemSingleMatch | src/main/java/rj/com/store/services/servicesimp/CartServiceImp.java:64-84 | after an add exactly one item is for the product, with the last requested quantity and its line total |
| CartItems.AddItemIdempotent | src/main/java/rj/com/store/services/servicesimp/CartServiceImp.java:64-84 | adding the same product and quantity twice leaves the same items as adding it once |
| CartItems.IndexOfItem | src/main/java/rj/com/store/services/servicesimp/CartServiceImp.java:93-94 | the first position holding the item id, or -1 exactly when the list does not contain it |
| CartItems.RemoveItem | src/main/java/rj/com/store/services/servicesimp/CartServiceImp.java:94 | List.remove: RemoveItemEffect shows exactly the item with the id goes, RemoveItemKeepsItems that the rest keep their order, RemoveItemKeepsDistinct that the invariants hold |
| CartItems.RemoveItemKeepsItems | src/main/java/rj/com/store/services/servicesimp/CartServiceImp.java:94 | every remaining item was in the list, the items before the removed one keep their positions and the later ones move up by one |
| CartItems.RemoveItemEffect | src/main/java/rj/com/store/services/servicesimp/CartServiceImp.java:93-94 | removing a present item drops exactly that one item: one fewer item, the id gone, every other item kept |
| CartItems.RemoveItemKeepsDistinct | src/main/java/rj/com/store/services/servicesimp/CartServiceImp.java:94 | removal keeps products and ids distinct |
| CartService.CartOrNew | src/main/java/rj/com/store/services/servicesimp/CartServiceImp.java:51-59 | an existing cart is reused; otherwise a new one has the fresh id, the timestamp, the user as owner and no items |
| CartService.AddItemToCart | src/main/java/rj/com/store/services/servicesimp/CartServiceImp.java:41-87 | quantity <= 0 fails with BadApiRequest; a missing product or user fails with ResourceNotFound; a failure changes nothing; success stores the merged cart under the user only and keeps the store valid |
| CartService.RemoveItemFromCart | src/main/java/rj/com/store/services/servicesimp/CartServiceImp.java:89-101 | a missing user, cart or item fails with ResourceNotFound; an item stored in another cart fails with BadApiRequest and nothing changes; otherwise only that item leaves the user's cart |
| CartService.ClearCart | src/main/java/rj/com/store/services/servicesimp/CartServiceImp.java:103-111 | a missing user or cart fails with ResourceNotFound; otherwise the user's cart keeps its id and owner and has no items |
| CartService.GetCartByUser | src/main/java/rj/com/store/services/servicesimp/CartServiceImp.java:113-117 | fails with ResourceNotFound when the user or the cart is missing; otherwise returns the user's own cart, whose items are valid |
| OrderLines.BuildOrderLines | src/main/java/rj/com/store/services/servicesimp/OrderServiceImp.java:60-72 | the loop builds one order line per cart item and an amount equal to the sum of the line totals |
| OrderLines.OrderLine | src/main/java/rj/com/store/services/servicesimp/OrderServiceImp.java:62-69 | one order item from one cart item; OrderLinesMatchCart states its product, quantity and current-price total |
| OrderLines.OrderLinesOf | src/main/java/rj/com/store/services/servicesimp/OrderServiceImp.java:61-72 | the stream map over the cart; BuildOrderLines is proved to compute it, OrderLinesMatchCart and OrderLinesIgnoreCachedTotals describe it |
| OrderLines.SumTotals | src/main/java/rj/com/store/services/servicesimp/OrderServiceImp.java:60-74 | the accumulated order amount; BuildOrderLines computes it and OrderTotalIsCurrentPrice equates it with the cart's value at current prices |
| OrderLines.NewOrder | src/main/java/rj/com/store/services/servicesimp/OrderServiceImp.java:48-74 | the order createOrder builds; NewOrderConsistent states its total, date, user, id and statuses, DefaultDraftStatuses its default statuses |
| OrderLines.OrderLinesMatchCart | src/main/java/rj/com/store/services/servicesimp/OrderServiceImp.java:61-72 | one order item per cart item, in the same order, with the same product and quantity and total quantity*(price - discountedPrice) of the current product |
| OrderLines.OrderLinesIgnoreCachedTotals | src/main/java/rj/com/store/services/servicesimp/OrderServiceImp.java:65-67 | the order lines depend only on each item's product and quantity, never on the cart's cached totals |
| OrderLines.OrderTotalIsCurrentPrice | src/main/java/rj/com/store/services/servicesimp/OrderServiceImp.java:60-74 | the sum of the order lines equals the cart's value at current prices, item by item |
| OrderLines.NewOrderConsistent | src/main/java/rj/com/store/services/servicesimp/OrderServiceImp.java:48-74 | a new order's total is the sum of its lines and the cart's current value; its date is now, it has no delivery date, and its user, id and statuses come from the request |
| OrderLines.DefaultDraftStatuses | src/main/java/rj/com/store/datatransferobjects/OrderDTO.java:15-16 | an order from a draft that kept its defaults is PENDING and NOT_PAID, with the draft's billing fields and no delivery date |
| OrderLines.ApplyUpdate | src/main/java/rj/com/store/services/servicesimp/OrderServiceImp.java:110-115 | an update keeps the order's id, items, total, order date and user |
| OrderLines.ApplyUpdateKeepsConsistent | src/main/java/rj/com/store/services/servicesimp/OrderServiceImp.java:107-118 | an updated order still has a total equal to the sum of its lines |
| OrderService.CreateOrder | src/main/java/rj/com/store/services/servicesimp/OrderServiceImp.java:39-79 | a missing user or cart fails with ResourceNotFound and an empty cart with BadApiRequest, changing nothing; otherwise the new order is stored under the fresh id and the found cart is emptied |
| OrderService.RemoveOrder | src/main/java/rj/com/store/services/servicesimp/OrderServiceImp.java:82-85 | a missing order fails with ResourceNotFound; otherwise exactly that order is deleted |
| OrderService.UpdateOrder | src/main/java/rj/com/store/services/servicesimp/OrderServiceImp.java:107-118 | a missing order fails with ResourceNotFound; otherwise only the six status, delivery and billing fields of that order change |
| OrderService.GetAllOrderOfUser | src/main/java/rj/com/store/services/servicesimp/OrderServiceImp.java:88-92 | an unknown user fails with ResourceNotFound; otherwise the result is exactly the stored orders of that user |
| TokenTable.RowOf | src/main/java/rj/com/store/services/servicesimp/RefreshTokenServiceImp.java:55 | the user's token row, present exactly when the table holds a row for the user |
| TokenTable.FindByToken | src/main/java/rj/com/store/services/servicesimp/RefreshTokenServiceImp.java:79-82 | the row whose value equals the argument exactly, or ResourceNotFound exactly when no row has it |
| TokenTable.Rotate | src/main/java/rj/com/store/services/servicesimp/RefreshTokenServiceImp.java:55-68 | create-or-overwrite of the user's row; RotateEffect, RotateKeepsValid, RotateResolvesFresh and RotateRevokesPrevious state its effect |
| TokenTable.Verify | src/main/java/rj/com/store/services/servicesimp/RefreshTokenServiceImp.java:97-100 | deletion of an expired row; VerifyConsumesExpired shows the row goes and its value stops resolving |
| TokenTable.RotateKeepsValid | src/main/java/rj/com/store/services/servicesimp/RefreshTokenServiceImp.java:55-68 | creating or rotating keeps at most one row per user and unique token values |
| TokenTable.RotateEffect | src/main/java/rj/com/store/services/servicesimp/RefreshTokenServiceImp.java:55-68 | an existing row keeps its id and gets the fresh value and now + 30 days, adding no row; without one a single row is added; other rows are untouched |
| TokenTable.RotateExisting | src/main/java/rj/com/store/services/servicesimp/RefreshTokenServiceImp.java:63-66 | the user's existing row is overwritten in place: same id, same key set |
| TokenTable.RotateInsert | src/main/java/rj/com/store/services/servicesimp/RefreshTokenServiceImp.java:57-62 | a user without a row gets one new row with the next identity, the fresh value and now + 30 days |
| TokenTable.RotateResolvesFresh | src/main/java/rj/com/store/services/servicesimp/RefreshTokenServiceImp.java:63-68 | after creation the fresh value resolves to the user's row with the new expiry |
| TokenTable.RotateRevokesPrevious | src/main/java/rj/com/store/services/servicesimp/RefreshTokenServiceImp.java:63-68 | after a second creation the user's previous value no longer resolves |
| TokenTable.VerifyConsumesExpired | src/main/java/rj/com/store/services/servicesimp/RefreshTokenServiceImp.java:97-100 | a token strictly past expiry has its row deleted, after which its value no longer resolves |
| Repositories.CartWithId | src/main/java/rj/com/store/services/servicesimp/OrderServiceImp.java:43 | the cart with the given id, found exactly when some cart has it |
| Repositories.UserByEmail | src/main/java/rj/com/store/services/servicesimp/RefreshTokenServiceImp.java:52-53 | the user with the given email, found exactly when one exists |
| Repositories.ItemStored | src/main/java/rj/com/store/services/servicesimp/CartServiceImp.java:92 | cartItemRepository.findById: some stored cart holds an item with the id; when the user and the cart exist, RemoveItemFromCart fails with ResourceNotFound exactly when no cart does |
| RefreshTokenService.CreateRefreshToken | src/main/java/rj/com/store/services/servicesimp/RefreshTokenServiceImp.java:51-70 | an unknown email fails with ResourceNotFound and creates nothing; otherwise the table is rotated for the user and the stored row, with the fresh value and now + 30 days, is returned |
| RefreshTokenService.FindByToken | src/main/java/rj/com/store/services/servicesimp/RefreshTokenServiceImp.java:79-83 | a stored row with exactly this value, or ResourceNotFound when there is none |
| RefreshTokenService.VerifyRefreshToken | src/main/java/rj/com/store/services/servicesimp/RefreshTokenServiceImp.java:93-103 | strictly past expiry deletes that row and fails with ResourceNotFound; at or before expiry the token is returned and the table is untouched |
| RefreshTokenService.GetUserByToken | src/main/java/rj/com/store/services/servicesimp/RefreshTokenServiceImp.java:112-118 | re-reads the row by value and returns its owner; fails with ResourceNotFound when no row holds the value |
| RefreshTokenService.RegenerateToken | src/main/java/rj/com/store/controller/AuthenticationController.java:124-132 | find, verify and get-user in sequence: an unknown value fails; an expired one fails and no longer resolves afterwards; a live one yields its owner and changes nothing |
| FileService.Extension | src/main/java/rj/com/store/services/servicesimp/FileServiceImp.java:26 | a name without '.' fails; otherwise the result is the suffix starting at the last '.', with no other '.' |
| FileService.IsAllowedExtension | src/main/java/rj/com/store/services/servicesimp/FileServiceImp.java:31 | the whitelist; AllowedExtensionsAreImageTypes shows it accepts exactly .png, .jpg and .jpeg in any case |
| FileService.AllowedExtensionsAreImageTypes | src/main/java/rj/com/store/services/servicesimp/FileServiceImp.java:31 | an extension passes exactly when its lower-case form is .png, .jpg or .jpeg |
| FileService.StoredNameKeepsExtension | src/main/java/rj/com/store/services/servicesimp/FileServiceImp.java:26-28 | the stored name, UUID followed by the extension, has the original name's extension |
| FileService.UploadImage | src/main/java/rj/com/store/services/servicesimp/FileServiceImp.java:22-41 | a missing '.' or a refused extension fails and writes nothing; otherwise the folder exists afterwards; an existing target at path + name fails with FileAlreadyExists, else that file is written and the bare name is returned |
| ImageNameValidator.IsValid | src/main/java/rj/com/store/validate/ImageNameValidator.java:11-21 | valid exactly when the file is present, non-empty and at most MAX_FILE_SIZE; a missing or empty file keeps the default message, and exactly the oversized files get the size message |
| ImageNameValidator.SizeLimitBoundary | src/main/java/rj/com/store/validate/ImageNameValidator.java:9-20 | a file of exactly the limit is accepted and one byte more is not; the limit is 10 MiB, five times the 2MB the message names |

## Left out

- Controllers, security configuration, OpenAPI configuration and the global exception handler: routing and wiring with no logic of their own. Only the find, verify and get-user sequence of the regenerate-token endpoint is modelled.
- Access tokens (`JwtHelper`, the JWT filter): signing and parsing go through an external library, so the regenerate-token sequence stops before a new access token is issued.
- Product, category and user services, and `getAllOrder` paging and sorting: pass-throughs to the repositories and the paging helper.
- Cloud image storage and `FileServiceImp.getResource`: calls into external storage and stream reads.
- Mapping between entities and transfer objects is the identity. The refresh-token service never assigns its mapper, which would fail at run time; that is not modelled.
- Concurrency: single-threaded sequences only. The cart's load-modify-save race and the last-writer-wins rotation race are not modelled.
- A crash between clearing the cart and saving the order is not modelled. The two writes happen in that order, in one method.
- Floating point: prices are whole minor units, so rounding of `double` arithmetic is not modelled.
- Entity objects and aliasing: entities are values in their tables, so two loaded copies of a row cannot diverge. Generated ids of order items and the item's back-reference to its cart are not modelled.
- Products are never deleted in the model, so every cart item refers to a product in the catalog.
- Text.EqualsIgnoreCase: folds ASCII letters only, whereas Java also folds the other Unicode letters.
- OrderService.GetAllOrderOfUser: the second not-found check (OrderServiceImp.java:90) is treated as never failing, because the repository answers with a present, possibly empty, list; the result is a set, so the listing order is not modelled.
- FileService.UploadImage: a null original name and I/O failures other than an existing target file are not modelled.
- RefreshTokenService.CreateRefreshToken, CartService.AddItemToCart, OrderService.CreateOrder: random UUIDs are required not to collide with a stored token, cart id or order id.
