/** The recipes slice of the store (src/app/recipe/recipe.reducer.ts). */
module RecipeReducer {
  import opened Wrappers
  import opened Actions
  import opened RecipeModel
  import opened EntityAdapter

  /** `recipes` holds the adapter's `ids` and `entities`; `error` is None when the property is absent. */
  datatype State = State(
    recipes: Entities<RecipeId>,
    isLoading: bool,
    isSynced: bool,
    recipeSelected: Option<RecipeId>,
    error: Option<string>)

  /** An empty collection, not loading, not synchronised, nothing selected. */
  const Initial: State := State(Empty(), false, false, None, None)

  /** The adapter's result for the three change actions is built on a copy of the state without `error`. */
  function WithRecipes(state: State, recipes: Entities<RecipeId>): State
  {
    State(recipes, state.isLoading, state.isSynced, state.recipeSelected, None)
  }

  /**
   * recipeReducer: one case per handled action type; every other action
   * leaves the state as it is. Every action keeps the collection invariant,
   * and only the three change actions and RECIPE_STOP_SYNCING touch the
   * stored recipes.
   */
  function Reduce(state: State, action: Action): (r: State)
    ensures Valid(state) ==> Valid(r)
    ensures r.recipes != state.recipes ==>
      action.RecipeAdded? || action.RecipeModified? || action.RecipeRemoved? || action.RecipeStopSyncing?
  {
    match action
    case RecipeSynced => state.(isSynced := true)
    case RecipeErrorSync(message) => state.(isLoading := false, error := Some(message), isSynced := false)
    case RecipeStopSyncing => Initial
    case RecipeStartLoading => state.(isLoading := true)
    case RecipeStopLoading => state.(isLoading := false)
    case RecipeError(message) => state.(isLoading := false, error := Some(message))
    case RecipeSelected(recipe) => state.(recipeSelected := Some(recipe))
    case NoRecipeSelected => state.(recipeSelected := None)
    case RecipeAdded(recipe) => WithRecipes(state, AddOne(state.recipes, recipe.id, recipe))
    case RecipeModified(recipe) => WithRecipes(state, UpdateOne(state.recipes, recipe.id, recipe))
    case RecipeRemoved(recipe) => WithRecipes(state, RemoveOne(state.recipes, recipe.id))
    case _ => state
  }

  /** getRecipeById: the recipe stored under `id`, if any. */
  function GetRecipeById(state: State, id: string): (r: Option<RecipeId>)
    ensures r.Some? <==> id in state.recipes.entities
    ensures r.Some? ==> r.value == state.recipes.entities[id]
  {
    SelectById(state.recipes, id)
  }

  /** The action types the switch of recipeReducer names. */
  predicate Handles(a: Action)
  {
    a.RecipeSynced? || a.RecipeErrorSync? || a.RecipeStopSyncing? || a.RecipeStartLoading?
    || a.RecipeStopLoading? || a.RecipeError? || a.RecipeSelected? || a.NoRecipeSelected?
    || a.RecipeAdded? || a.RecipeModified? || a.RecipeRemoved?
  }

  function RecipeKey(r: RecipeId): string { r.id }

  /** The collection invariant, and every recipe is stored under its own id. */
  predicate Valid(s: State)
  {
    EntityAdapter.Valid(s.recipes) && KeyedBy(s.recipes, RecipeKey)
  }

  /** RECIPE_STOP_SYNCING forgets everything: the result is the initial state, so doing it twice is doing it once. */
  lemma StopSyncingResets(s: State)
    ensures Reduce(s, RecipeStopSyncing) == Initial
    ensures Reduce(Reduce(s, RecipeStopSyncing), RecipeStopSyncing) == Reduce(s, RecipeStopSyncing)
    ensures Initial.recipes.ids == [] && Initial.recipes.entities == map[]
    ensures !Initial.isLoading && !Initial.isSynced && Initial.recipeSelected.None?
  {
  }

  /** RECIPE_SYNCED sets `isSynced` and changes nothing else. */
  lemma SyncedOnlyMarksSynced(s: State)
    ensures Reduce(s, RecipeSynced).isSynced
    ensures Reduce(s, RecipeSynced).(isSynced := s.isSynced) == s
  {
  }

  /** RECIPE_ERROR_SYNC stops loading, marks the slice unsynchronised, records the error and keeps the recipes. */
  lemma ErrorSyncKeepsRecipes(s: State, message: string)
    ensures var r := Reduce(s, RecipeErrorSync(message));
      && !r.isLoading && !r.isSynced && r.error == Some(message)
      && r.recipes == s.recipes && r.recipeSelected == s.recipeSelected
  {
  }

  /** RECIPE_ERROR stops loading and records the error; `isSynced` and the recipes stay. */
  lemma ErrorKeepsSync(s: State, message: string)
    ensures var r := Reduce(s, RecipeError(message));
      && !r.isLoading && r.error == Some(message)
      && r.isSynced == s.isSynced && r.recipes == s.recipes && r.recipeSelected == s.recipeSelected
  {
  }

  /** START_LOADING and STOP_LOADING set the loading flag and change nothing else. */
  lemma LoadingActionsOnlySetFlag(s: State)
    ensures Reduce(s, RecipeStartLoading).isLoading && !Reduce(s, RecipeStopLoading).isLoading
    ensures Reduce(s, RecipeStartLoading).(isLoading := s.isLoading) == s
    ensures Reduce(s, RecipeStopLoading).(isLoading := s.isLoading) == s
  {
  }

  /** RECIPE_SELECTED stores its payload as the selection, NO_RECIPE_SELECTED clears it; nothing else changes. */
  lemma SelectionOnlyTouchesSelected(s: State, recipe: RecipeId)
    ensures Reduce(s, RecipeSelected(recipe)).recipeSelected == Some(recipe)
    ensures Reduce(s, NoRecipeSelected).recipeSelected.None?
    ensures Reduce(s, RecipeSelected(recipe)).(recipeSelected := s.recipeSelected) == s
    ensures Reduce(s, NoRecipeSelected).(recipeSelected := s.recipeSelected) == s
  {
  }

  /** The three change actions drop `error` and keep the loading, synchronised and selection fields. */
  lemma ChangesDropErrorKeepFlags(s: State, a: Action)
    requires a.RecipeAdded? || a.RecipeModified? || a.RecipeRemoved?
    ensures var r := Reduce(s, a);
      && r.error.None? && r.isLoading == s.isLoading && r.isSynced == s.isSynced
      && r.recipeSelected == s.recipeSelected
  {
  }

  /** After RECIPE_ADDED, getRecipeById finds a new recipe under its id; every other id keeps its recipe. */
  lemma GetRecipeByIdAfterAdded(s: State, recipe: RecipeId, other: string)
    requires other != recipe.id
    ensures recipe.id !in s.recipes.entities ==> GetRecipeById(Reduce(s, RecipeAdded(recipe)), recipe.id) == Some(recipe)
    ensures recipe.id in s.recipes.entities ==> GetRecipeById(Reduce(s, RecipeAdded(recipe)), recipe.id) == GetRecipeById(s, recipe.id)
    ensures GetRecipeById(Reduce(s, RecipeAdded(recipe)), other) == GetRecipeById(s, other)
  {
  }

  /**
   * After RECIPE_MODIFIED, getRecipeById finds the payload under a present
   * id and still nothing under a missing one; every other id keeps its recipe.
   */
  lemma GetRecipeByIdAfterModified(s: State, recipe: RecipeId, other: string)
    requires other != recipe.id
    ensures recipe.id in s.recipes.entities ==> GetRecipeById(Reduce(s, RecipeModified(recipe)), recipe.id) == Some(recipe)
    ensures recipe.id !in s.recipes.entities ==> GetRecipeById(Reduce(s, RecipeModified(recipe)), recipe.id).None?
    ensures GetRecipeById(Reduce(s, RecipeModified(recipe)), other) == GetRecipeById(s, other)
  {
  }

  /** After RECIPE_REMOVED, getRecipeById finds nothing under the removed id; every other id keeps its recipe. */
  lemma GetRecipeByIdAfterRemoved(s: State, recipe: RecipeId, other: string)
    requires other != recipe.id
    ensures GetRecipeById(Reduce(s, RecipeRemoved(recipe)), recipe.id).None?
    ensures GetRecipeById(Reduce(s, RecipeRemoved(recipe)), other) == GetRecipeById(s, other)
  {
  }

  /** Actions the switch does not name leave the recipes state as it is. */
  lemma UnhandledActionsKeepState(s: State, a: Action)
    requires !Handles(a) && Foreign(a)
    ensures Reduce(s, a) == s
  {
  }
  /** No case of the switch has the logout-success type, so that action leaves the state as it is. */
  lemma LogoutSuccessKeepsState(s: State, a: Action)
    requires IsLogoutSuccess(a)
    ensures Reduce(s, a) == s
  {
    OnlyLogoutSuccessfulClears(a);
  }


  /** The collection invariant holds in every state reachable from the initial one. */
  lemma ReachableStatesAreValid(actions: seq<Action>)
    ensures Valid(Replay(Reduce, Initial, actions))
  {
    assert forall t, a :: Valid(t) ==> Valid(Reduce(t, a));
    ReplayPreserves(Reduce, Valid, (a: Action) => true, Initial, actions);
  }
}
