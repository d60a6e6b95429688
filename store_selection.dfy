/** The store-selection rule of `selectStore()`. */
module StoreSelection {
  import opened Wrappers
  import opened Commerce

  /**
   * Picks the store a new wishlist item belongs to, from the stores the entity
   * is sold from and the current store: the only store when there is one, an
   * error when there is none, and otherwise the current store, provided the
   * entity is sold there.
   */
  function SelectStore(stores: seq<Store>, current: Store): (r: Result<Store, Error>)
    ensures r.Success? ==> r.value in stores
    ensures r.Failure? ==> r.error == NoStoreAssigned || r.error == StoreMismatch
  {
    if |stores| == 1 then Success(stores[0])
    else if |stores| == 0 then Failure(NoStoreAssigned)
    else if current in stores then Success(current)
    else Failure(StoreMismatch)
  }

  /** An entity sold from one store always gets that store, whatever the current store. */
  lemma SingleStoreIsSelected(s: Store, current: Store)
    ensures SelectStore([s], current) == Success(s)
  {
  }

  /** An entity sold from no store is malformed. */
  lemma NoStoreIsAnError(current: Store)
    ensures SelectStore([], current) == Failure(NoStoreAssigned)
  {
  }

  /** With several stores, the current store is selected exactly when the entity is sold there. */
  lemma SeveralStoresUseCurrent(stores: seq<Store>, current: Store)
    requires |stores| > 1
    ensures SelectStore(stores, current).Success? <==> current in stores
    ensures current in stores ==> SelectStore(stores, current) == Success(current)
    ensures current !in stores ==> SelectStore(stores, current) == Failure(StoreMismatch)
  {
  }

  /** Selection succeeds exactly when there is one store, or several including the current one. */
  lemma SelectStoreSucceedsIff(stores: seq<Store>, current: Store)
    ensures SelectStore(stores, current).Success? <==> |stores| == 1 || (|stores| > 1 && current in stores)
  {
  }
}
