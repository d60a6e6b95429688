/**
 * The wishlist-add workflow as functions: what one row does, what processing
 * a list of rows does to the wishlists, and the whole request (validation, then
 * processing). The `WishlistAdd` module's `Post` method is proved to compute
 * exactly `AddAll`.
 */
module AddWorkflow {
  import opened Wrappers
  import opened Php
  import opened Commerce
  import opened EntityStorage
  import opened StoreSelection
  import opened Wishlists
  import opened Payload

  /**
   * The collaborators the workflow consults without changing them: the
   * registered entity types, the stored entities, the wishlist-type resolver
   * chain and the current store.
   */
  datatype Env = Env(
    definitions: set<string>,
    entities: map<EntityRef, Entity>,
    resolver: Draft -> string,
    currentStore: Store)

  /** What one validated row leads to. */
  datatype StepOutcome = Skip | Abort(error: Error) | Add(item: WishlistItem)

  /**
   * The effect of a run over rows: the error that stopped it (if any), the items
   * added so far in order, the wishlists afterwards, and the loads performed.
   */
  datatype Run = Run(
    error: Option<Error>,
    added: seq<WishlistItem>,
    wishlists: WishlistMap,
    loads: seq<EntityRef>)

  /** The response of a run: the added items, or the error that stopped it. */
  function Response(run: Run): Result<seq<WishlistItem>, Error> {
    if run.error.Some? then Failure(run.error.value) else Success(run.added)
  }

  /**
   * One row: skipped when its entity does not load or is not purchasable;
   * aborted when no store can be selected; otherwise an item for the loaded
   * entity, with the defaulted quantity, added to the wishlist of the resolved
   * type in a store the entity is sold from.
   */
  function Step(row: Row, env: Env): (s: StepOutcome)
    ensures s.Skip? <==> RowRef(row) !in env.entities || !env.entities[RowRef(row)].purchasable
    ensures s.Abort? <==>
      && RowRef(row) in env.entities && env.entities[RowRef(row)].purchasable
      && SelectStore(env.entities[RowRef(row)].stores, env.currentStore).Failure?
    ensures s.Abort? ==> SelectStore(env.entities[RowRef(row)].stores, env.currentStore) == Failure(s.error)
    ensures s.Abort? ==> s.error == NoStoreAssigned || s.error == StoreMismatch
    ensures s.Add? ==>
      var e := env.entities[RowRef(row)];
      && s.item.entity == e && e.purchasable
      && s.item.quantity == ItemQuantity(row)
      && s.item.wishlist.typeId == env.resolver(Draft(e, ItemQuantity(row)))
      && SelectStore(e.stores, env.currentStore) == Success(s.item.wishlist.store)
      && s.item.wishlist.store in e.stores
  {
    match Find(env.entities, RowRef(row))
    case None => Skip
    case Some(e) =>
      if !e.purchasable then Skip
      else
        var draft := Draft(e, ItemQuantity(row));
        var typeId := env.resolver(draft);
        match SelectStore(e.stores, env.currentStore)
        case Failure(err) => Abort(err)
        case Success(store) => Add(WishlistItem(e, draft.quantity, WishlistKey(typeId, store)))
  }

  /**
   * Processing `rows` in order, starting from the wishlists `ws`. Every row is
   * loaded; a skipped row adds nothing; the first row that aborts stops the run
   * and leaves every earlier change in place.
   */
  function Process(rows: seq<Entry>, env: Env, ws: WishlistMap): Run
    decreases |rows|
  {
    if rows == [] then Run(None, [], ws, [])
    else Then(Process(rows[..|rows| - 1], env, ws), rows[|rows| - 1].row, env)
  }

  /**
   * The run `prev` followed by one more row: nothing happens after an abort;
   * otherwise the row is loaded and its outcome applied.
   */
  function Then(prev: Run, row: Row, env: Env): Run {
    if prev.error.Some? then prev
    else
      var loads := prev.loads + [RowRef(row)];
      match Step(row, env)
      case Skip => prev.(loads := loads)
      case Abort(e) => prev.(error := Some(e), loads := loads)
      case Add(item) =>
        Run(None, prev.added + [item], AddItem(GetOrCreate(prev.wishlists, item.wishlist), item), loads)
  }

  /** The whole request: validation of every row first, then processing. */
  function AddAll(body: seq<Entry>, env: Env, ws: WishlistMap): Run {
    match FirstError(body, env.definitions)
    case Some(e) => Run(Some(e), [], ws, [])
    case None => Process(body, env, ws)
  }

  // Reference definitions for the run.

  /** No row of `rows` aborts. */
  ghost predicate NoAbort(rows: seq<Entry>, env: Env) {
    forall j :: 0 <= j < |rows| ==> !Step(rows[j].row, env).Abort?
  }

  /** Row `k` is the first row of `rows` that aborts. */
  ghost predicate AbortsAt(rows: seq<Entry>, env: Env, k: int) {
    0 <= k < |rows| && Step(rows[k].row, env).Abort? && NoAbort(rows[..k], env)
  }

  /** The items of the rows that are not skipped, in row order. */
  function AddedItems(rows: seq<Entry>, env: Env): (r: seq<WishlistItem>)
    ensures |r| <= |rows|
  {
    if rows == [] then []
    else
      var rest := AddedItems(rows[..|rows| - 1], env);
      match Step(rows[|rows| - 1].row, env)
      case Add(item) => rest + [item]
      case _ => rest
  }

  /** The (type, id) of every row, in row order. */
  function Refs(rows: seq<Entry>): (r: seq<EntityRef>)
    ensures |r| == |rows|
  {
    if rows == [] then [] else Refs(rows[..|rows| - 1]) + [RowRef(rows[|rows| - 1].row)]
  }

  /** Two runs agree on everything but the loads they performed. */
  ghost predicate SameEffect(a: Run, b: Run) {
    a.error == b.error && a.added == b.added && a.wishlists == b.wishlists
  }

  // Lemmas about processing.

  /** Once a prefix of the rows has aborted, the later rows change nothing. */
  lemma {:induction false} AbortIsFinal(rows: seq<Entry>, env: Env, ws: WishlistMap, i: nat)
    requires i <= |rows|
    requires Process(rows[..i], env, ws).error.Some?
    ensures Process(rows, env, ws) == Process(rows[..i], env, ws)
    decreases |rows| - i
  {
    if i < |rows| {
      var longer := rows[..i + 1];
      assert longer[..i] == rows[..i];
      AbortIsFinal(rows, env, ws, i + 1);
    } else {
      assert rows[..i] == rows;
    }
  }

  /**
   * A run succeeds exactly when no row aborts; it then has added the items of
   * all non-skipped rows, in row order, and has loaded every row.
   */
  lemma {:induction false} ProcessSucceeds(rows: seq<Entry>, env: Env, ws: WishlistMap)
    ensures Process(rows, env, ws).error.None? <==> NoAbort(rows, env)
    ensures Process(rows, env, ws).error.None? ==>
      Process(rows, env, ws).added == AddedItems(rows, env) && Process(rows, env, ws).loads == Refs(rows)
  {
    if rows != [] {
      var n := |rows| - 1;
      var init := rows[..n];
      ProcessSucceeds(init, env, ws);
      NoAbortExtend(init, rows[n], env);
      assert init + [rows[n]] == rows;
    }
  }

  /** The rows extended by one row do not abort exactly when neither part does. */
  lemma NoAbortExtend(rows: seq<Entry>, r: Entry, env: Env)
    ensures NoAbort(rows + [r], env) <==> NoAbort(rows, env) && !Step(r.row, env).Abort?
  {
    var longer := rows + [r];
    assert forall j :: 0 <= j < |rows| ==> longer[j] == rows[j];
    assert longer[|rows|] == r;
  }

  /**
   * When row `k` is the first to abort, the run fails with that row's
   * store-selection error, keeps the items of the non-skipped rows before `k`,
   * and has loaded rows 0 to `k` only.
   */
  lemma {:induction false} ProcessAborts(rows: seq<Entry>, env: Env, ws: WishlistMap, k: int)
    requires AbortsAt(rows, env, k)
    ensures Process(rows, env, ws).error == Some(Step(rows[k].row, env).error)
    ensures Process(rows, env, ws).added == AddedItems(rows[..k], env)
    ensures Process(rows, env, ws).loads == Refs(rows[..k + 1])
  {
    var upTo := rows[..k + 1];
    assert upTo[..k] == rows[..k];
    ProcessSucceeds(rows[..k], env, ws);
    assert Process(upTo, env, ws).error.Some?;
    AbortIsFinal(rows, env, ws, k + 1);
  }

  /** The items a run has added, even a failed one, are a prefix of the non-skipped rows' items. */
  lemma {:induction false} ProcessAddedPrefix(rows: seq<Entry>, env: Env, ws: WishlistMap)
    ensures Process(rows, env, ws).added <= AddedItems(rows, env)
  {
    if rows != [] {
      var init := rows[..|rows| - 1];
      ProcessAddedPrefix(init, env, ws);
      ProcessSucceeds(init, env, ws);
    }
  }

  /** Whatever the outcome, the wishlists are the old ones with the added items placed in them. */
  lemma {:induction false} ProcessPlacesAdded(rows: seq<Entry>, env: Env, ws: WishlistMap)
    ensures Process(rows, env, ws).wishlists == Place(ws, Process(rows, env, ws).added)
  {
    if rows != [] {
      ProcessPlacesAdded(rows[..|rows| - 1], env, ws);
      ThenPlacesAdded(Process(rows[..|rows| - 1], env, ws), rows[|rows| - 1].row, env, ws);
    }
  }

  /** One more row keeps the wishlists equal to the old ones with the added items placed in them. */
  lemma ThenPlacesAdded(prev: Run, row: Row, env: Env, ws: WishlistMap)
    requires prev.wishlists == Place(ws, prev.added)
    ensures Then(prev, row, env).wishlists == Place(ws, Then(prev, row, env).added)
  {
    var next := Then(prev, row, env);
    if prev.error.None? && Step(row, env).Add? {
      assert next.added[..|next.added| - 1] == prev.added;
    }
  }

  /**
   * A skipped row neither adds anything nor stops the rows after it: with it or
   * without it, processing ends with the same error, items and wishlists.
   */
  lemma {:induction false} SkippedRowChangesNothing(before: seq<Entry>, r: Entry, after: seq<Entry>, env: Env, ws: WishlistMap)
    requires Step(r.row, env).Skip?
    ensures SameEffect(Process(before + [r] + after, env, ws), Process(before + after, env, ws))
    decreases |after|
  {
    if after == [] {
      assert (before + [r])[..|before|] == before;
      assert before + [r] + after == before + [r];
      assert before + after == before;
    } else {
      var n := |after| - 1;
      var with := before + [r] + after;
      var without := before + after;
      assert with[..|with| - 1] == before + [r] + after[..n];
      assert without[..|without| - 1] == before + after[..n];
      assert with[|with| - 1] == without[|without| - 1] == after[n];
      SkippedRowChangesNothing(before, r, after[..n], env, ws);
      ThenKeepsSameEffect(Process(before + [r] + after[..n], env, ws), Process(before + after[..n], env, ws), after[n].row, env);
    }
  }

  /** Runs with the same effect still have the same effect after one more row. */
  lemma ThenKeepsSameEffect(a: Run, b: Run, row: Row, env: Env)
    requires SameEffect(a, b)
    ensures SameEffect(Then(a, row, env), Then(b, row, env))
  {
  }

  /**
   * When every stored entity carries the (type, id) it is stored under, the item
   * added for a row is for the very entity the row names.
   */
  lemma AddedItemIsForRow(row: Row, env: Env)
    requires StoredUnderOwnRef(env.entities)
    requires Step(row, env).Add?
    ensures Step(row, env).item.entity.ref == RowRef(row)
  {
  }

  /** Every item of the non-skipped rows is in a wishlist of a store its entity is sold from. */
  lemma {:induction false} AddedItemsSoldThere(rows: seq<Entry>, env: Env)
    ensures forall item :: item in AddedItems(rows, env) ==>
      item.entity.purchasable && item.wishlist.store in item.entity.stores
  {
    if rows != [] {
      AddedItemsSoldThere(rows[..|rows| - 1], env);
    }
  }

  // Lemmas about the whole request.

  /**
   * If any row fails validation the request fails with the first invalid row's
   * error, before anything is loaded, created or added.
   */
  lemma InvalidRowRejectsRequest(body: seq<Entry>, env: Env, ws: WishlistMap, k: int)
    requires FirstInvalidAt(body, env.definitions, k)
    ensures AddAll(body, env, ws) == Run(RowError(body[k], env.definitions), [], ws, [])
    ensures Response(AddAll(body, env, ws)) == Failure(RowError(body[k], env.definitions).value)
  {
    FirstErrorIsAt(body, env.definitions, k);
  }

  /**
   * A valid request whose rows do not abort succeeds with the items of the
   * non-skipped rows in row order, at most one per row, after loading every row.
   */
  lemma ValidRequestSucceeds(body: seq<Entry>, env: Env, ws: WishlistMap)
    requires AllValid(body, env.definitions) && NoAbort(body, env)
    ensures Response(AddAll(body, env, ws)) == Success(AddedItems(body, env))
    ensures |AddedItems(body, env)| <= |body|
    ensures AddAll(body, env, ws).loads == Refs(body)
  {
    ProcessSucceeds(body, env, ws);
  }

  /**
   * A valid request whose row `k` is the first to abort fails with that row's
   * error; nothing is rolled back: the items of the earlier non-skipped rows
   * stay in their wishlists.
   */
  lemma AbortKeepsEarlierItems(body: seq<Entry>, env: Env, ws: WishlistMap, k: int)
    requires AllValid(body, env.definitions) && AbortsAt(body, env, k)
    ensures Response(AddAll(body, env, ws)) == Failure(Step(body[k].row, env).error)
    ensures AddAll(body, env, ws).wishlists == Place(ws, AddedItems(body[..k], env))
    ensures AddAll(body, env, ws).loads == Refs(body[..k + 1])
  {
    ProcessAborts(body, env, ws, k);
    ProcessPlacesAdded(body, env, ws);
  }

  /**
   * Whatever the outcome, a wishlist exists for `k` afterwards exactly when one
   * existed before or an added item went to `k`, and it holds its old items
   * followed by the added items for `k`: rows with the same (type, store) share
   * one wishlist and the other keys' wishlists are unchanged.
   */
  lemma AddAllWishlists(body: seq<Entry>, env: Env, ws: WishlistMap, k: WishlistKey)
    ensures var run := AddAll(body, env, ws);
      && (k in run.wishlists <==> k in ws || exists j :: 0 <= j < |run.added| && run.added[j].wishlist == k)
      && ItemsAt(run.wishlists, k) == ItemsAt(ws, k) + OnKey(run.added, k)
  {
    var run := AddAll(body, env, ws);
    if FirstError(body, env.definitions).None? {
      ProcessPlacesAdded(body, env, ws);
    }
    PlaceContents(ws, run.added, k);
  }

  /**
   * Every item in a successful response is in the wishlist it names, and that
   * wishlist's store is one the item's entity is sold from.
   */
  lemma ResponseItemsAreInTheirWishlists(body: seq<Entry>, env: Env, ws: WishlistMap)
    requires Response(AddAll(body, env, ws)).Success?
    ensures var run := AddAll(body, env, ws);
      forall item :: item in run.added ==>
        && item.wishlist in run.wishlists
        && item in run.wishlists[item.wishlist].items
        && item.wishlist.store in item.entity.stores
  {
    var run := AddAll(body, env, ws);
    ProcessAddedPrefix(body, env, ws);
    AddedItemsSoldThere(body, env);
    forall item | item in run.added
      ensures item.wishlist in run.wishlists && item in run.wishlists[item.wishlist].items
    {
      var j :| 0 <= j < |run.added| && run.added[j] == item;
      AddAllWishlists(body, env, ws, item.wishlist);
      OnKeyHasItem(run.added, j);
    }
  }

  /** A response never has more items than the payload has rows. */
  lemma ResponseIsBounded(body: seq<Entry>, env: Env, ws: WishlistMap)
    ensures |AddAll(body, env, ws).added| <= |body|
  {
    if FirstError(body, env.definitions).None? {
      ProcessAddedPrefix(body, env, ws);
    }
  }
}
