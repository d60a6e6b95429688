/**
 * The request payload: a keyed list of rows, the validation every row must
 * pass before anything is loaded or changed, and what a valid row yields.
 */
module Payload {
  import opened Wrappers
  import opened Php
  import opened Commerce
  import opened EntityStorage

  const TypeField := "purchasable_entity_type"
  const IdField := "purchasable_entity_id"
  const QuantityField := "quantity"

  /** A payload element with the key it was sent under. */
  datatype Entry = Entry(key: RowKey, row: Row)

  /**
   * The validation of one row, checks in order: the type is set, the id is set,
   * the type is registered. The first check that fails names the error;
   * a row passes exactly when all three hold.
   */
  function RowError(e: Entry, definitions: set<string>): (r: Option<Error>)
    ensures r.None? <==>
      IsSet(e.row, TypeField) && IsSet(e.row, IdField) && HasDefinition(definitions, e.row[TypeField])
    ensures r.Some? ==> r.value.IsValidationError() && r.value.row == e.key
    ensures !IsSet(e.row, TypeField) ==> r == Some(MissingType(e.key))
    ensures IsSet(e.row, TypeField) && !IsSet(e.row, IdField) ==> r == Some(MissingId(e.key))
    ensures IsSet(e.row, TypeField) && IsSet(e.row, IdField) && !HasDefinition(definitions, e.row[TypeField]) ==>
              r == Some(InvalidType(e.key))
  {
    if !IsSet(e.row, TypeField) then Some(MissingType(e.key))
    else if !IsSet(e.row, IdField) then Some(MissingId(e.key))
    else if !HasDefinition(definitions, e.row[TypeField]) then Some(InvalidType(e.key))
    else None
  }

  /** Every row of `body` passes validation. */
  ghost predicate AllValid(body: seq<Entry>, definitions: set<string>) {
    forall j :: 0 <= j < |body| ==> RowError(body[j], definitions).None?
  }

  /** Row `k` is the first row of `body` that fails validation. */
  ghost predicate FirstInvalidAt(body: seq<Entry>, definitions: set<string>, k: int) {
    0 <= k < |body| && RowError(body[k], definitions).Some? &&
    forall j :: 0 <= j < k ==> RowError(body[j], definitions).None?
  }

  /**
   * The validation of the whole payload: no error when every row passes, and
   * otherwise the error of the first row, in payload order, that fails.
   */
  function FirstError(body: seq<Entry>, definitions: set<string>): (r: Option<Error>)
    ensures r.None? <==> AllValid(body, definitions)
    ensures r.Some? ==> exists k :: FirstInvalidAt(body, definitions, k) && r == RowError(body[k], definitions)
  {
    if body == [] then None
    else if RowError(body[0], definitions).Some? then
      assert FirstInvalidAt(body, definitions, 0);
      RowError(body[0], definitions)
    else
      var r := FirstError(body[1..], definitions);
      assert forall j :: 1 <= j < |body| ==> body[j] == body[1..][j - 1];
      assert r.Some? ==> exists k :: FirstInvalidAt(body, definitions, k) && r == RowError(body[k], definitions) by {
        if r.Some? {
          var k :| FirstInvalidAt(body[1..], definitions, k) && r == RowError(body[1..][k], definitions);
          assert FirstInvalidAt(body, definitions, k + 1);
        }
      }
      r
  }

  /** Only one row can be the first invalid one. */
  lemma FirstInvalidIsUnique(body: seq<Entry>, definitions: set<string>, k: int, k': int)
    requires FirstInvalidAt(body, definitions, k) && FirstInvalidAt(body, definitions, k')
    ensures k == k'
  {
  }

  /** If row `k` is the first invalid row, validation reports row `k`'s error. */
  lemma FirstErrorIsAt(body: seq<Entry>, definitions: set<string>, k: int)
    requires FirstInvalidAt(body, definitions, k)
    ensures FirstError(body, definitions) == RowError(body[k], definitions)
  {
    var k' :| FirstInvalidAt(body, definitions, k') &&
      FirstError(body, definitions) == RowError(body[k'], definitions);
    FirstInvalidIsUnique(body, definitions, k, k');
  }

  /**
   * The quantity of the item built from `row`: the row's quantity when it is
   * present and not empty in PHP's sense (absent, null, 0, "0", "" are empty),
   * and 1 otherwise. The quantity given to an item is never empty.
   */
  function ItemQuantity(row: Row): (q: Value)
    ensures !IsEmpty(q)
    ensures !IsEmpty(Lookup(row, QuantityField)) ==> q == row[QuantityField]
    ensures IsEmpty(Lookup(row, QuantityField)) ==> q == Int(1)
  {
    if !IsEmpty(Lookup(row, QuantityField)) then row[QuantityField] else Int(1)
  }

  /** The (type, id) a row's entity is loaded with. */
  function RowRef(row: Row): (ref: EntityRef)
    ensures IsSet(row, TypeField) ==> ref.entityType == row[TypeField]
    ensures IsSet(row, IdField) ==> ref.id == row[IdField]
  {
    EntityRef(Lookup(row, TypeField), Lookup(row, IdField))
  }
}
