/** The shopping-list slice of the store (src/app/shopping-list/shopping-list.reducer.ts). */
module ShoppingListReducer {
  import opened Wrappers
  import opened Actions
  import opened Ingredients
  import opened EntityAdapter

  /** `ingredients` holds the adapter's `ids` and `entities`; `error` is None when the property is absent. */
  datatype State = State(ingredients: Entities<IngredientId>, isLoading: bool, error: Option<string>)

  /** An empty list, not loading. */
  const Initial: State := State(Empty(), false, None)

  /** The adapter's result for the three change actions is built on a copy of the state without `error`. */
  function WithIngredients(state: State, ingredients: Entities<IngredientId>): State
  {
    State(ingredients, state.isLoading, None)
  }

  /**
   * shoppingListReducer: one case per handled action type; every other
   * action leaves the state as it is. Every action keeps the collection
   * invariant, and only the three change actions touch the list.
   */
  function Reduce(state: State, action: Action): (r: State)
    ensures Valid(state) ==> Valid(r)
    ensures r.ingredients != state.ingredients ==>
      action.IngredientAdded? || action.IngredientModified? || action.IngredientRemoved?
  {
    match action
    case ShoppingListStartLoading => state.(isLoading := true)
    case ShoppingListStopLoading => state.(isLoading := false)
    case ShoppingListError(message) => state.(isLoading := false, error := Some(message))
    case IngredientAdded(ingredient) =>
      WithIngredients(state, AddOne(state.ingredients, ingredient.id, ingredient))
    case IngredientModified(ingredient) =>
      WithIngredients(state, UpdateOne(state.ingredients, ingredient.id, ingredient))
    case IngredientRemoved(ingredient) =>
      WithIngredients(state, RemoveOne(state.ingredients, ingredient.id))
    case _ => state
  }

  /** getIngredientById: the ingredient stored under `id`, if any. */
  function GetIngredientById(state: State, id: string): (r: Option<IngredientId>)
    ensures r.Some? <==> id in state.ingredients.entities
    ensures r.Some? ==> r.value == state.ingredients.entities[id]
  {
    SelectById(state.ingredients, id)
  }

  /** The action types the switch of shoppingListReducer names. */
  predicate Handles(a: Action)
  {
    a.ShoppingListStartLoading? || a.ShoppingListStopLoading? || a.ShoppingListError?
    || a.IngredientAdded? || a.IngredientModified? || a.IngredientRemoved?
  }

  function IngredientKey(i: IngredientId): string { i.id }

  /** The collection invariant, and every ingredient is stored under its own id. */
  predicate Valid(s: State)
  {
    EntityAdapter.Valid(s.ingredients) && KeyedBy(s.ingredients, IngredientKey)
  }

  /** The initial state: no ids, no entities, not loading, no error. */
  lemma InitialIsEmpty()
    ensures Initial.ingredients.ids == [] && Initial.ingredients.entities == map[]
    ensures !Initial.isLoading && Initial.error.None? && Valid(Initial)
  {
  }

  /** START_LOADING and STOP_LOADING set the loading flag; the list and the error stay. */
  lemma LoadingActionsOnlySetFlag(s: State)
    ensures Reduce(s, ShoppingListStartLoading).isLoading && !Reduce(s, ShoppingListStopLoading).isLoading
    ensures Reduce(s, ShoppingListStartLoading).(isLoading := s.isLoading) == s
    ensures Reduce(s, ShoppingListStopLoading).(isLoading := s.isLoading) == s
  {
  }

  /** SHOPPING_LIST_ERROR stops loading and records its payload; the list stays. */
  lemma ErrorKeepsList(s: State, message: string)
    ensures var r := Reduce(s, ShoppingListError(message));
      !r.isLoading && r.error == Some(message) && r.ingredients == s.ingredients
  {
  }

  /** The three change actions drop `error` and keep the loading flag. */
  lemma ChangesDropErrorKeepLoading(s: State, a: Action)
    requires a.IngredientAdded? || a.IngredientModified? || a.IngredientRemoved?
    ensures Reduce(s, a).error.None? && Reduce(s, a).isLoading == s.isLoading
  {
  }

  /**
   * INGREDIENT_REMOVED leaves its id in neither `ids` nor `entities`, keeps
   * every other ingredient with its value, and keeps the other ids.
   */
  lemma RemovedIsGone(s: State, ingredient: IngredientId)
    ensures var r := Reduce(s, IngredientRemoved(ingredient));
      && ingredient.id !in r.ingredients.ids && ingredient.id !in r.ingredients.entities
      && r.ingredients.entities.Keys == s.ingredients.entities.Keys - {ingredient.id}
      && (forall k :: k in r.ingredients.entities ==> r.ingredients.entities[k] == s.ingredients.entities[k])
      && (forall k :: k in s.ingredients.ids && k != ingredient.id ==> k in r.ingredients.ids)
  {
  }

  /** INGREDIENT_MODIFIED keeps the ids and the keys; it replaces only the ingredient under the payload's id. */
  lemma ModifiedKeepsIds(s: State, ingredient: IngredientId)
    ensures var r := Reduce(s, IngredientModified(ingredient));
      && r.ingredients.ids == s.ingredients.ids
      && r.ingredients.entities.Keys == s.ingredients.entities.Keys
      && (ingredient.id in s.ingredients.entities ==> r.ingredients.entities[ingredient.id] == ingredient)
      && (forall k :: k in s.ingredients.entities && k != ingredient.id ==>
            r.ingredients.entities[k] == s.ingredients.entities[k])
  {
  }

  /**
   * INGREDIENT_ADDED appends a new id and stores its payload; an id that is
   * already present keeps its ingredient.
   */
  lemma AddedAppendsNewId(s: State, ingredient: IngredientId)
    ensures var r := Reduce(s, IngredientAdded(ingredient));
      && (ingredient.id !in s.ingredients.entities ==>
            r.ingredients.ids == s.ingredients.ids + [ingredient.id]
            && r.ingredients.entities == s.ingredients.entities[ingredient.id := ingredient])
      && (ingredient.id in s.ingredients.entities ==> r.ingredients == s.ingredients)
  {
  }

  /** Actions the switch does not name, the four syncing actions among them, leave the state as it is. */
  lemma UnhandledActionsKeepState(s: State, a: Action)
    requires !Handles(a) && Foreign(a)
    ensures Reduce(s, a) == s
    ensures Reduce(s, ShoppingListStartSyncing) == s && Reduce(s, ShoppingListStopSyncing) == s
    ensures Reduce(s, ShoppingListSynced) == s
    ensures forall m :: Reduce(s, ShoppingListErrorSync(m)) == s
  {
  }
  /** No case of the switch has the logout-success type, so that action leaves the state as it is. */
  lemma LogoutSuccessKeepsState(s: State, a: Action)
    requires IsLogoutSuccess(a)
    ensures Reduce(s, a) == s
  {
    OnlyLogoutSuccessfulClears(a);
  }


  /** The invariant holds in every state reachable from the initial one. */
  lemma ReachableStatesAreValid(actions: seq<Action>)
    ensures Valid(Replay(Reduce, Initial, actions))
  {
    assert forall t, a :: Valid(t) ==> Valid(Reduce(t, a));
    ReplayPreserves(Reduce, Valid, (a: Action) => true, Initial, actions);
  }
}
