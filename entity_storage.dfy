/**
 * The entity type manager as the workflow sees it: a fixed set of registered
 * entity types and a storage to load entities from. Every load is recorded.
 */
module EntityStorage {
  import opened Wrappers
  import opened Php
  import opened Commerce

  /** `hasDefinition($type)`: the type, given as a string, is a registered entity type. */
  predicate HasDefinition(definitions: set<string>, entityType: Value) {
    entityType.Str? && entityType.s in definitions
  }

  /** Every stored entity carries the (type, id) it is stored under. */
  ghost predicate StoredUnderOwnRef(entities: map<EntityRef, Entity>) {
    forall r :: r in entities ==> entities[r].ref == r
  }

  /** What loading `ref` from storage yields: the stored entity, or nothing. */
  function Find(entities: map<EntityRef, Entity>, ref: EntityRef): (r: Option<Entity>)
    ensures r.Some? <==> ref in entities
    ensures r.Some? ==> r.value == entities[ref]
  {
    if ref in entities then Some(entities[ref]) else None
  }

  class EntityTypeManager {
    /** The registered entity types. */
    const definitions: set<string>
    /** The stored entities, by the (type, id) they are loaded with. */
    const entities: map<EntityRef, Entity>
    /** Every load performed so far, in order. */
    var loads: seq<EntityRef>

    constructor (definitions: set<string>, entities: map<EntityRef, Entity>)
      ensures this.definitions == definitions && this.entities == entities
      ensures loads == []
    {
      this.definitions := definitions;
      this.entities := entities;
      loads := [];
    }

    /** `getStorage($ref->type)->load($ref->id)`. */
    method Load(ref: EntityRef) returns (e: Option<Entity>)
      modifies this
      ensures e == Find(entities, ref)
      ensures loads == old(loads) + [ref]
    {
      e := Find(entities, ref);
      loads := loads + [ref];
    }
  }
}
