# Wishlist add workflow

A Dafny model of the "wishlist add" REST resource of `commerce_wishlist_api`
(a Drupal Commerce module). A POST request carries a keyed list of rows
`{purchasable_entity_type, purchasable_entity_id, quantity?}`. The resource:

1. validates every row before doing anything else (type set, id set, type
   registered, in that order, first failing row reported);
2. loads each row's entity and skips rows whose entity is missing or not
   purchasable;
3. builds a wishlist item with the row's quantity (1 when the quantity is
   empty in PHP's sense), asks the wishlist-type resolver for its type and
   selects a store (the only store, or the current store when the entity is
   sold from several; an exception when it is sold from none, or not from the
   current store);
4. gets or creates the wishlist for (type, store), adds the item to it and
   collects the returned items in row order.

A store-selection exception aborts the request, and nothing done for earlier
rows is undone.

Layout:

- `php.dfy` (`Php`): PHP values, `isset`, `empty`.
- `commerce.dfy` (`Commerce`): stores, entities, wishlist items, wishlists, errors.
- `wrappers.dfy` (`Wrappers`): `Option`, `Result`.
- `store_selection.dfy` (`StoreSelection`): `selectStore()` as a function.
- `entity_storage.dfy` (`EntityStorage`): the entity type manager as a class, with
  its registered types, its stored entities and a record of every load.
- `wishlists.dfy` (`Wishlists`): the provider's map from (type, store) to wishlist,
  get-or-create and add-item on that map, the `WishlistProvider` class.
- `payload.dfy` (`Payload`): rows, the per-row and whole-payload validation, the item quantity.
- `add_workflow.dfy` (`AddWorkflow`): one row (`Step`), a run over rows (`Process`),
  the whole request (`AddAll`), and the lemmas about them.
- `wishlist_add.dfy` (`WishlistAdd`): the `WishlistAddResource` class, whose `Post`
  method has the source's two loops and is proved to compute exactly `AddAll`.

Collaborators are parameters of the model: the registered entity types and the stored
entities are constant fields of `EntityTypeManager`, the wishlist-type resolver is a
function `Draft -> string`, and the current store is a value. The session or account
that owns the wishlists is the `WishlistProvider` instance itself.

The model follows the code in two places a reader might not expect:

- The quantity defaults to 1 whenever PHP's `empty()` holds of it (absent, null, false,
  0, 0.0, `""`, `"0"`, an empty array), not only when it is absent or zero. Any other value,
  a negative number or a non-numeric string included, is passed on as it is.
- An entity's stores are the list `getStores()` returns, counted as a list, not a set.

## Model

| member | source | states |
|---|---|---|
| `StoreSelection.SelectStore` | src/Plugin/rest/resource/WishlistAddResource.php:180-198 | a selected store is always one the entity is sold from; the only errors are "no store assigned" and "store mismatch" |
| `StoreSelection.SingleStoreIsSelected` | src/Plugin/rest/resource/WishlistAddResource.php:182-184 | an entity sold from one store gets that store whatever the current store is |
| `StoreSelection.NoStoreIsAnError` | src/Plugin/rest/resource/WishlistAddResource.php:185-188 | an entity sold from no store raises "no store assigned" |
| `StoreSelection.SeveralStoresUseCurrent` | src/Plugin/rest/resource/WishlistAddResource.php:189-195 | with several stores, selection succeeds exactly when the current store is among them, and then yields the current store; otherwise "store mismatch" |
| `StoreSelection.SelectStoreSucceedsIff` | src/Plugin/rest/resource/WishlistAddResource.php:180-198 | selection succeeds exactly when there is one store, or several that include the current one |
| `EntityStorage.Find` | src/Plugin/rest/resource/WishlistAddResource.php:142-143 | loading yields an entity exactly when one is stored under that (type, id), and then that entity |
| `EntityStorage.EntityTypeManager.Load` | src/Plugin/rest/resource/WishlistAddResource.php:142-143 | returns the stored entity or nothing, and records the load |
| `Wishlists.GetOrCreate` | src/Plugin/rest/resource/WishlistAddResource.php:153-156 | afterwards the key has a wishlist; an existing wishlist is kept as it is; a new, empty one is made only for a missing key; no other key changes |
| `Wishlists.GetOrCreateIdempotent` | src/Plugin/rest/resource/WishlistAddResource.php:153-156 | getting-or-creating twice for one key is the same as once |
| `Wishlists.AddItem` | src/Plugin/rest/resource/WishlistAddResource.php:157 | the item is appended to the wishlist it names, whose other items stay; no other wishlist changes |
| `Wishlists.PlaceContents` | src/Plugin/rest/resource/WishlistAddResource.php:153-157 | after a series of get-or-create and add steps, a key has a wishlist exactly when it had one or an item went to it, and that wishlist holds its old items followed by the items for that key in order |
| `Wishlists.PlaceKeepsWellKeyed` | src/Plugin/rest/resource/WishlistAddResource.php:153-157 | every wishlist stays stored under its own type and store |
| `Wishlists.WishlistProvider.GetWishlist` | src/Plugin/rest/resource/WishlistAddResource.php:153 | returns the wishlist for (type, store) exactly when one exists, and that wishlist has that type and store |
| `Wishlists.WishlistProvider.CreateWishlist` | src/Plugin/rest/resource/WishlistAddResource.php:154-156 | asked only for a key without a wishlist; adds an empty wishlist under it and changes nothing else |
| `Wishlists.WishlistProvider.AddWishlistItem` | src/Plugin/rest/resource/WishlistAddResource.php:157 | returns the item, now belonging to the given wishlist, and appends it to that wishlist |
| `Payload.RowError` | src/Plugin/rest/resource/WishlistAddResource.php:131-139 | a row passes exactly when its type and id are set (present and not null) and its type is registered; a missing type is reported before a missing id, which is reported before an unknown type (reported when type and id are set and the type is not registered); the error names the row's key |
| `Payload.FirstError` | src/Plugin/rest/resource/WishlistAddResource.php:130-140 | the payload passes exactly when every row passes; otherwise the error is that of the first failing row in payload order |
| `Payload.FirstErrorIsAt` | src/Plugin/rest/resource/WishlistAddResource.php:130-140 | when row k is the first failing row, the payload's error is row k's error |
| `Payload.ItemQuantity` | src/Plugin/rest/resource/WishlistAddResource.php:148 | the item quantity is the row's quantity when it is not empty in PHP's sense, and 1 otherwise; it is never empty |
| `Payload.RowRef` | src/Plugin/rest/resource/WishlistAddResource.php:142-143 | a row's entity is loaded with the row's own type and id |
| `AddWorkflow.Step` | src/Plugin/rest/resource/WishlistAddResource.php:142-157 | a row is skipped exactly when its entity is missing or not purchasable; it aborts exactly when its entity is purchasable and store selection fails, with that selection's error; an added item references the loaded entity, has the defaulted quantity, and goes to the wishlist of the resolved type in the store that store selection picks, which the entity is sold from |
| `AddWorkflow.AddedItemIsForRow` | src/Plugin/rest/resource/WishlistAddResource.php:142-147 | when stored entities carry their own (type, id), the item added for a row is for the entity that row names |
| `AddWorkflow.AddedItems` | src/Plugin/rest/resource/WishlistAddResource.php:141-158 | the items of the non-skipped rows are at most one per row |
| `AddWorkflow.AbortIsFinal` | src/Plugin/rest/resource/WishlistAddResource.php:152 | once a row has raised a store-selection exception, the rows after it change nothing |
| `AddWorkflow.ProcessSucceeds` | src/Plugin/rest/resource/WishlistAddResource.php:141-158 | processing succeeds exactly when no row aborts; then it has added the items of all non-skipped rows in row order and has loaded every row |
| `AddWorkflow.ProcessAborts` | src/Plugin/rest/resource/WishlistAddResource.php:141-158 | when row k is the first to abort, processing fails with row k's error, has added the items of the non-skipped rows before k, and has loaded rows 0 to k only |
| `AddWorkflow.ProcessAddedPrefix` | src/Plugin/rest/resource/WishlistAddResource.php:157 | the items added by any run, failed or not, are a prefix of the non-skipped rows' items |
| `AddWorkflow.ProcessPlacesAdded` | src/Plugin/rest/resource/WishlistAddResource.php:153-157 | whatever the outcome, the wishlists afterwards are the old ones with exactly the added items placed in them |
| `AddWorkflow.SkippedRowChangesNothing` | src/Plugin/rest/resource/WishlistAddResource.php:144-146 | removing a skipped row from anywhere in the rows leaves the error, the items and the wishlists unchanged, so a skip never stops later rows |
| `AddWorkflow.AddedItemsSoldThere` | src/Plugin/rest/resource/WishlistAddResource.php:147-157 | every added item is for a purchasable entity and sits in a wishlist of a store that entity is sold from |
| `AddWorkflow.InvalidRowRejectsRequest` | src/Plugin/rest/resource/WishlistAddResource.php:130-141 | if any row fails validation the request fails with the first failing row's error, and nothing is loaded, created or added |
| `AddWorkflow.ValidRequestSucceeds` | src/Plugin/rest/resource/WishlistAddResource.php:126-161 | a valid request with no aborting row returns the items of the non-skipped rows, in row order, at most one per row, after loading every row |
| `AddWorkflow.AbortKeepsEarlierItems` | src/Plugin/rest/resource/WishlistAddResource.php:141-158 | a valid request whose row k is the first to abort fails with row k's error, and the items of the earlier non-skipped rows stay in their wishlists; nothing is rolled back |
| `AddWorkflow.AddAllWishlists` | src/Plugin/rest/resource/WishlistAddResource.php:153-157 | after a request, a key has a wishlist exactly when it had one or an added item went to it; it holds its old items followed by that key's added items in order, so rows with the same (type, store) share one wishlist and other keys are unchanged |
| `AddWorkflow.ResponseItemsAreInTheirWishlists` | src/Plugin/rest/resource/WishlistAddResource.php:152-160 | every item of a successful response is in the wishlist it names, and that wishlist's store sells the item's entity |
| `AddWorkflow.ResponseIsBounded` | src/Plugin/rest/resource/WishlistAddResource.php:127-160 | a request never adds more items than the payload has rows |
| `WishlistAdd.WishlistAddResource.ValidatePayload` | src/Plugin/rest/resource/WishlistAddResource.php:130-140 | the validation loop passes exactly when every row passes, and otherwise stops with the first failing row's error |
| `WishlistAdd.WishlistAddResource.Post` | src/Plugin/rest/resource/WishlistAddResource.php:126-162 | the response, the wishlists afterwards and the loads performed are exactly those of `AddAll`: validation of the whole payload, then row-by-row processing |

## Left out

- The HTTP layer: the `ModifiedResourceResponse` with status 200 and the mapping of validation failures to `UnprocessableEntityHttpException`. The model returns a `Result` whose error says which check failed for which row key; it does not model message texts.
- The constructor, `create()` and the logger: dependency-injection plumbing.
- `src/Normalizer/PurchasableEntityNormalizer.php`: it depends on global route state and on the framework serializer, which are not part of this model.
- The wishlist manager's merging of an added item with an equal existing item (`addWishlistItem(..., TRUE)`): that code is not part of this model. Adding an item appends it and returns it.
- The wishlist-type resolver chain: an opaque function from a draft item to a type id.
- The entity storage: a map looked up by the exact (type, id) values. PHP's loose comparison of ids (`10` against `"10"`) is not modelled.
- `hasDefinition`: a type counts as registered only when it is a string in the set of definitions. PHP's coercion of integer array keys is not modelled.
- Exceptions raised inside the collaborators, such as a failing load or storage errors, are not modelled.
- Payload elements that are not arrays: every row is a string-keyed map.
- `$this->currentStore->getStore()`: the current store is a fixed value. The source asks for it only when the entity has several stores; asking has no side effect, so this makes no difference.
- `in_array`'s loose comparison of store objects: stores are compared by value.
- `Wishlists.WishlistProvider.CreateWishlist`: the provider keeps one wishlist per (type, store), so the model only asks it to create a wishlist for a key that has none, which is the only way `post()` calls it. What the real provider does when asked twice for one key is not modelled.
