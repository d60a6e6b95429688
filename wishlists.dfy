/**
 * The wishlist provider's state, a map from (wishlist type, store) to wishlist,
 * the two updates the workflow makes to it (get-or-create, add an item), and
 * the provider class that holds that map.
 */
module Wishlists {
  import opened Wrappers
  import opened Commerce

  type WishlistMap = map<WishlistKey, Wishlist>

  /** A fresh wishlist for `key`, with no items. */
  function NewWishlist(key: WishlistKey): (w: Wishlist)
    ensures w.typeId == key.typeId && w.store == key.store && w.items == []
  {
    Wishlist(key.typeId, key.store, [])
  }

  function KeyOf(w: Wishlist): WishlistKey {
    WishlistKey(w.typeId, w.store)
  }

  /** Every wishlist is stored under its own type and store. */
  ghost predicate WellKeyed(ws: WishlistMap) {
    forall k :: k in ws ==> KeyOf(ws[k]) == k
  }

  /** The items of the wishlist for `k`, none if there is no such wishlist. */
  function ItemsAt(ws: WishlistMap, k: WishlistKey): seq<WishlistItem> {
    if k in ws then ws[k].items else []
  }

  /** The items of `items` that were added to the wishlist for `k`, in order. */
  function OnKey(items: seq<WishlistItem>, k: WishlistKey): (r: seq<WishlistItem>)
    ensures |r| <= |items|
  {
    if items == [] then []
    else
      var rest := OnKey(items[..|items| - 1], k);
      if items[|items| - 1].wishlist == k then rest + [items[|items| - 1]] else rest
  }

  /**
   * `getWishlist($type, $store)`, and `createWishlist($type, $store)` when that
   * found none: an existing wishlist is reused as it is, a new empty one is
   * created only for a missing key, and no other key is touched.
   */
  function GetOrCreate(ws: WishlistMap, key: WishlistKey): (r: WishlistMap)
    ensures r.Keys == ws.Keys + {key}
    ensures forall k :: k in ws ==> r[k] == ws[k]
    ensures key !in ws ==> r[key] == NewWishlist(key)
  {
    if key in ws then ws else ws[key := NewWishlist(key)]
  }

  /** Appends `item` to the wishlist it names; no other wishlist changes. */
  function AddItem(ws: WishlistMap, item: WishlistItem): (r: WishlistMap)
    requires item.wishlist in ws
    ensures r.Keys == ws.Keys
    ensures r[item.wishlist] == ws[item.wishlist].(items := ws[item.wishlist].items + [item])
    ensures forall k :: k in ws && k != item.wishlist ==> r[k] == ws[k]
  {
    ws[item.wishlist := ws[item.wishlist].(items := ws[item.wishlist].items + [item])]
  }

  /** The wishlists after get-or-create and add-item for each of `items`, in order. */
  function Place(ws: WishlistMap, items: seq<WishlistItem>): WishlistMap {
    if items == [] then ws
    else
      var last := items[|items| - 1];
      AddItem(GetOrCreate(Place(ws, items[..|items| - 1]), last.wishlist), last)
  }

  /** Asking twice for the same key creates at most one wishlist. */
  lemma GetOrCreateIdempotent(ws: WishlistMap, key: WishlistKey)
    ensures GetOrCreate(GetOrCreate(ws, key), key) == GetOrCreate(ws, key)
  {
  }

  /**
   * After placing `items`, a wishlist exists for `k` exactly when one existed
   * before or some item went to `k`; its items are the old ones followed by the
   * items placed under `k`, in order. So items with the same key share one
   * wishlist, an existing wishlist is extended and never replaced, and the
   * wishlists of other keys are left alone.
   */
  lemma {:induction false} PlaceContents(ws: WishlistMap, items: seq<WishlistItem>, k: WishlistKey)
    ensures k in Place(ws, items) <==> k in ws || exists j :: 0 <= j < |items| && items[j].wishlist == k
    ensures ItemsAt(Place(ws, items), k) == ItemsAt(ws, k) + OnKey(items, k)
  {
    PlaceHasKey(ws, items, k);
    PlaceItemsAt(ws, items, k);
  }

  /** After placing `items`, `k` has a wishlist exactly when it had one or some item went to `k`. */
  lemma {:induction false} PlaceHasKey(ws: WishlistMap, items: seq<WishlistItem>, k: WishlistKey)
    ensures k in Place(ws, items) <==> k in ws || exists j :: 0 <= j < |items| && items[j].wishlist == k
  {
    if items != [] {
      var n := |items| - 1;
      var init := items[..n];
      PlaceHasKey(ws, init, k);
      assert forall j :: 0 <= j < n ==> items[j] == init[j];
      if k !in ws && items[n].wishlist != k && exists j :: 0 <= j < |items| && items[j].wishlist == k {
        var j :| 0 <= j < |items| && items[j].wishlist == k;
        assert init[j].wishlist == k;
      }
    }
  }

  /** After placing `items`, the wishlist for `k` holds its old items followed by those placed under `k`. */
  lemma {:induction false} PlaceItemsAt(ws: WishlistMap, items: seq<WishlistItem>, k: WishlistKey)
    ensures ItemsAt(Place(ws, items), k) == ItemsAt(ws, k) + OnKey(items, k)
  {
    if items != [] {
      var n := |items| - 1;
      var init := items[..n];
      PlaceItemsAt(ws, init, k);
      var before := Place(ws, init);
      if items[n].wishlist == k && k !in before {
        PlaceHasKey(ws, init, k);
        OnKeyAbsent(init, k);
      }
    }
  }

  /** No item of `items` went to `k`, so none is placed under `k`. */
  lemma {:induction false} OnKeyAbsent(items: seq<WishlistItem>, k: WishlistKey)
    requires forall j :: 0 <= j < |items| ==> items[j].wishlist != k
    ensures OnKey(items, k) == []
  {
    if items != [] {
      OnKeyAbsent(items[..|items| - 1], k);
    }
  }

  /** Each item of `items` is among those placed under its own key. */
  lemma {:induction false} OnKeyHasItem(items: seq<WishlistItem>, j: nat)
    requires j < |items|
    ensures items[j] in OnKey(items, items[j].wishlist)
  {
    var n := |items| - 1;
    if j < n {
      OnKeyHasItem(items[..n], j);
    }
  }

  /** Placing items keeps every wishlist under its own key. */
  lemma {:induction false} PlaceKeepsWellKeyed(ws: WishlistMap, items: seq<WishlistItem>)
    requires WellKeyed(ws)
    ensures WellKeyed(Place(ws, items))
  {
    if items != [] {
      PlaceKeepsWellKeyed(ws, items[..|items| - 1]);
    }
  }

  /**
   * The wishlist provider, scoped to the current session or account (the scope
   * is the provider instance itself). `AddWishlistItem` stands for the wishlist
   * manager's `addWishlistItem`, which changes the wishlists this class holds.
   */
  class WishlistProvider {
    var wishlists: WishlistMap

    ghost predicate Valid()
      reads this
    {
      WellKeyed(wishlists)
    }

    constructor (initial: WishlistMap)
      requires WellKeyed(initial)
      ensures Valid() && wishlists == initial
    {
      wishlists := initial;
    }

    /** `getWishlist($type, $store)`: the wishlist for that key, if there is one. */
    method GetWishlist(typeId: string, store: Store) returns (w: Option<Wishlist>)
      requires Valid()
      ensures w.Some? <==> WishlistKey(typeId, store) in wishlists
      ensures w.Some? ==> w.value == wishlists[WishlistKey(typeId, store)]
      ensures w.Some? ==> w.value.typeId == typeId && w.value.store == store
    {
      var key := WishlistKey(typeId, store);
      if key in wishlists {
        w := Some(wishlists[key]);
      } else {
        w := None;
      }
    }

    /**
     * `createWishlist($type, $store)`. The provider keeps one wishlist per key,
     * so it is only asked for a key that has none yet.
     */
    method CreateWishlist(typeId: string, store: Store) returns (w: Wishlist)
      requires Valid()
      requires WishlistKey(typeId, store) !in wishlists
      modifies this
      ensures Valid()
      ensures w == NewWishlist(WishlistKey(typeId, store))
      ensures wishlists == old(wishlists)[WishlistKey(typeId, store) := w]
    {
      w := NewWishlist(WishlistKey(typeId, store));
      wishlists := wishlists[WishlistKey(typeId, store) := w];
    }

    /**
     * `addWishlistItem($wishlist, $item, TRUE)`: appends the item to the given
     * wishlist and returns it, now belonging to that wishlist.
     */
    method AddWishlistItem(w: Wishlist, draft: Draft) returns (item: WishlistItem)
      requires Valid()
      requires KeyOf(w) in wishlists
      modifies this
      ensures Valid()
      ensures item == WishlistItem(draft.entity, draft.quantity, KeyOf(w))
      ensures wishlists == AddItem(old(wishlists), item)
    {
      item := WishlistItem(draft.entity, draft.quantity, KeyOf(w));
      wishlists := AddItem(wishlists, item);
    }
  }
}
