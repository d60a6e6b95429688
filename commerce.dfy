/**
 * The entities the wishlist-add workflow passes around: stores, purchasable
 * entities, wishlist items and wishlists, and the errors the workflow raises.
 */
module Commerce {
  import opened Php

  /** A store (a sales channel), compared by value. */
  datatype Store = Store(id: nat)

  /** How the payload names an entity: its entity type and its id, as given. */
  datatype EntityRef = EntityRef(entityType: Value, id: Value)

  /**
   * An entity as loaded from storage. `ref` is the (type, id) that identifies it; `purchasable` says whether it implements
   * the purchasable-entity interface; `stores` is what `getStores()` returns.
   */
  datatype Entity = Entity(ref: EntityRef, purchasable: bool, stores: seq<Store>)

  /** A wishlist item built from a purchasable entity, not yet in a wishlist. */
  datatype Draft = Draft(entity: Entity, quantity: Value)

  /** The provider's key for a wishlist: the wishlist type and the store. */
  datatype WishlistKey = WishlistKey(typeId: string, store: Store)

  /** A wishlist item that has been added to the wishlist `wishlist`. */
  datatype WishlistItem = WishlistItem(entity: Entity, quantity: Value, wishlist: WishlistKey)

  datatype Wishlist = Wishlist(typeId: string, store: Store, items: seq<WishlistItem>)

  /** A payload row key, used only in error messages. */
  datatype RowKey = Index(n: int) | Name(s: string)

  /**
   * The three validation errors (reported as "unprocessable entity") and the
   * two store-selection exceptions.
   */
  datatype Error =
    | MissingType(row: RowKey)
    | MissingId(row: RowKey)
    | InvalidType(row: RowKey)
    | NoStoreAssigned
    | StoreMismatch
  {
    predicate IsValidationError() {
      MissingType? || MissingId? || InvalidType?
    }
  }
}
