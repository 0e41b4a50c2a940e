/**
 * The entity collection that ngrx's entity adapter keeps inside the recipe
 * and shopping-list states: an ordered list of ids and a dictionary from id
 * to entity (src/app/recipe/recipe.reducer.ts:17-20). The adapter library
 * itself is not part of this model; its add, update and remove operations
 * are given the semantics the reducers rely on: adding ignores an id that is
 * already present, updating and removing ignore an id that is missing.
 */
module EntityAdapter {
  import opened Wrappers
  import opened Seqs

  datatype Entities<T> = Entities(ids: seq<string>, entities: map<string, T>)

  /** The collection invariant: `ids` lists every key of `entities` exactly once, and nothing else. */
  predicate Valid<T>(c: Entities<T>)
  {
    && NoDuplicates(c.ids)
    && (forall k :: k in c.entities ==> k in c.ids)
    && (forall k :: k in c.ids ==> k in c.entities)
  }

  /** The collection of `getInitialState`: no ids, no entities. */
  function Empty<T>(): (r: Entities<T>)
    ensures Valid(r) && |r.ids| == 0 && |r.entities| == 0
  {
    Entities([], map[])
  }

  /** addOne: stores a new entity under `id` at the end of the list; an id already present is ignored. */
  function AddOne<T>(c: Entities<T>, id: string, e: T): (r: Entities<T>)
    ensures Valid(c) ==> Valid(r)
    ensures r.entities.Keys == c.entities.Keys + {id}
    ensures forall k :: k in c.entities ==> r.entities[k] == c.entities[k]
    ensures id !in c.entities ==> r.entities[id] == e && r.ids == c.ids + [id]
    ensures id in c.entities ==> r == c
  {
    if id in c.entities then c
    else Entities(c.ids + [id], c.entities[id := e])
  }

  /**
   * updateOne with changes that carry every field of the entity and the same
   * id as the key: the stored entity becomes `e`; a missing id is ignored.
   */
  function UpdateOne<T>(c: Entities<T>, id: string, e: T): (r: Entities<T>)
    ensures Valid(c) ==> Valid(r)
    ensures r.ids == c.ids && r.entities.Keys == c.entities.Keys
    ensures id in c.entities ==> r.entities[id] == e
    ensures forall k :: k in c.entities && k != id ==> r.entities[k] == c.entities[k]
  {
    if id !in c.entities then c
    else Entities(c.ids, c.entities[id := e])
  }

  /** removeOne: drops `id` from the list and the dictionary; a missing id is ignored. */
  function RemoveOne<T>(c: Entities<T>, id: string): (r: Entities<T>)
    ensures Valid(c) ==> Valid(r)
    ensures id !in r.entities && id !in r.ids
    ensures r.entities.Keys == c.entities.Keys - {id}
    ensures forall k :: k in r.entities ==> r.entities[k] == c.entities[k]
    ensures forall k :: k in c.ids && k != id ==> k in r.ids
  {
    if id !in c.entities && id !in c.ids then c
    else Entities(Without(c.ids, id), c.entities - {id})
  }

  /** The entity stored under `id`, as `entities[id]` reads it. */
  function SelectById<T>(c: Entities<T>, id: string): (r: Option<T>)
    ensures r.Some? <==> id in c.entities
    ensures r.Some? ==> r.value == c.entities[id]
  {
    if id in c.entities then Some(c.entities[id]) else None
  }

  /** Every entity is stored under the id it carries (`selectId`). */
  predicate KeyedBy<T>(c: Entities<T>, selectId: T -> string)
  {
    forall k :: k in c.entities ==> selectId(c.entities[k]) == k
  }
}
