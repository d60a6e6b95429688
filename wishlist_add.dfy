/**
 * The REST resource that adds wishlist items: `post()` validates the whole
 * payload, then processes it row by row against the entity storage and the
 * wishlist provider, and returns the added items in order.
 */
module WishlistAdd {
  import opened Wrappers
  import opened Php
  import opened Commerce
  import opened EntityStorage
  import opened StoreSelection
  import opened Wishlists
  import opened Payload
  import opened AddWorkflow

  class WishlistAddResource {
    const entityTypeManager: EntityTypeManager
    const wishlistProvider: WishlistProvider
    /** The chain wishlist-type resolver: the wishlist type for a new item. */
    const chainWishlistTypeResolver: Draft -> string
    /** The store of the current request. */
    const currentStore: Store

    constructor (entityTypeManager: EntityTypeManager, wishlistProvider: WishlistProvider,
                 chainWishlistTypeResolver: Draft -> string, currentStore: Store)
      ensures this.entityTypeManager == entityTypeManager
      ensures this.wishlistProvider == wishlistProvider
      ensures this.chainWishlistTypeResolver == chainWishlistTypeResolver
      ensures this.currentStore == currentStore
    {
      this.entityTypeManager := entityTypeManager;
      this.wishlistProvider := wishlistProvider;
      this.chainWishlistTypeResolver := chainWishlistTypeResolver;
      this.currentStore := currentStore;
    }

    /** The collaborators that `post()` only reads. */
    function Collaborators(): Env {
      Env(entityTypeManager.definitions, entityTypeManager.entities, chainWishlistTypeResolver, currentStore)
    }

    /**
     * The validation pass of `post()`: every row in payload order; the first
     * row that fails a check stops the pass with that check's error.
     */
    method ValidatePayload(body: seq<Entry>) returns (error: Option<Error>)
      ensures error.None? <==> AllValid(body, entityTypeManager.definitions)
      ensures error.Some? ==> exists k :: FirstInvalidAt(body, entityTypeManager.definitions, k) &&
                                          error == RowError(body[k], entityTypeManager.definitions)
    {
      var i := 0;
      while i < |body|
        invariant 0 <= i <= |body|
        invariant forall j :: 0 <= j < i ==> RowError(body[j], entityTypeManager.definitions).None?
      {
        var row := body[i].row;
        if !IsSet(row, TypeField) {
          assert FirstInvalidAt(body, entityTypeManager.definitions, i);
          return Some(MissingType(body[i].key));
        }
        if !IsSet(row, IdField) {
          assert FirstInvalidAt(body, entityTypeManager.definitions, i);
          return Some(MissingId(body[i].key));
        }
        if !HasDefinition(entityTypeManager.definitions, row[TypeField]) {
          assert FirstInvalidAt(body, entityTypeManager.definitions, i);
          return Some(InvalidType(body[i].key));
        }
        i := i + 1;
      }
      return None;
    }

    /**
     * `post()`: computes exactly `AddAll`, the response, the wishlists
     * afterwards and the loads performed.
     */
    method Post(body: seq<Entry>) returns (r: Result<seq<WishlistItem>, Error>)
      requires wishlistProvider.Valid()
      modifies entityTypeManager, wishlistProvider
      ensures wishlistProvider.Valid()
      ensures r == Response(AddAll(body, Collaborators(), old(wishlistProvider.wishlists)))
      ensures wishlistProvider.wishlists == AddAll(body, Collaborators(), old(wishlistProvider.wishlists)).wishlists
      ensures entityTypeManager.loads ==
              old(entityTypeManager.loads) + AddAll(body, Collaborators(), old(wishlistProvider.wishlists)).loads
    {
      var wishlistItems: seq<WishlistItem> := [];

      var invalid := ValidatePayload(body);
      if invalid.Some? {
        FirstErrorIsAt(body, entityTypeManager.definitions,
                       var k :| FirstInvalidAt(body, entityTypeManager.definitions, k) &&
                                invalid == RowError(body[k], entityTypeManager.definitions); k);
        return Failure(invalid.value);
      }

      ghost var ws0 := wishlistProvider.wishlists;
      ghost var loads0 := entityTypeManager.loads;
      ghost var loaded: seq<EntityRef> := [];
      var i := 0;
      while i < |body|
        invariant 0 <= i <= |body|
        invariant wishlistProvider.Valid()
        invariant entityTypeManager.loads == loads0 + loaded
        invariant Process(body[..i], Collaborators(), ws0) == Run(None, wishlistItems, wishlistProvider.wishlists, loaded)
      {
        assert body[..i + 1][..i] == body[..i];
        var row := body[i].row;
        var ref := RowRef(row);
        var entity := entityTypeManager.Load(ref);
        loaded := loaded + [ref];
        if entity.Some? && entity.value.purchasable {
          var draft := Draft(entity.value, ItemQuantity(row));
          var typeId := chainWishlistTypeResolver(draft);
          var selected := SelectStore(entity.value.stores, currentStore);
          if selected.Failure? {
            AbortIsFinal(body, Collaborators(), ws0, i + 1);
            return Failure(selected.error);
          }
          var store := selected.value;
          var wishlist := wishlistProvider.GetWishlist(typeId, store);
          if wishlist.None? {
            var created := wishlistProvider.CreateWishlist(typeId, store);
            wishlist := Some(created);
          }
          var item := wishlistProvider.AddWishlistItem(wishlist.value, draft);
          wishlistItems := wishlistItems + [item];
        }
        i := i + 1;
      }
      assert body[..i] == body;
      return Success(wishlistItems);
    }
  }
}
