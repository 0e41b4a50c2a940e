/**
 * The root of the store (src/app/app.reducer.ts): the map from slice key to
 * slice reducer, and the meta-reducer that forgets the user's data when the
 * user logs out. The router slice belongs to the router library, whose
 * reducer is not part of this model; it is a parameter here.
 */
module AppReducer {
  import opened Actions
  import ShoppingListReducer
  import RecipeReducer
  import AuthReducer

  /** The root state: one field per key of the reducer map. */
  datatype AppState<R> = AppState(
    shoppingList: ShoppingListReducer.State,
    recipes: RecipeReducer.State,
    auth: AuthReducer.State,
    router: R)

  /** The state before any action: every slice in its reducer's initial state. */
  function InitialState<R(!new)>(router: R): AppState<R>
  {
    AppState(ShoppingListReducer.Initial, RecipeReducer.Initial, AuthReducer.Initial, router)
  }

  /** Each slice keeps its own invariant. */
  predicate Valid<R(!new)>(s: AppState<R>)
  {
    ShoppingListReducer.Valid(s.shoppingList) && RecipeReducer.Valid(s.recipes) && AuthReducer.Consistent(s.auth)
  }

  /**
   * The reducer map: each slice is handed to its own reducer, with the same
   * action, so the root state keeps every slice's invariant.
   */
  function Combine<R(!new)>(routerReducer: (R, Action) -> R): (r: (AppState<R>, Action) -> AppState<R>)
    ensures forall s: AppState<R>, a: Action :: r(s, a).auth == AuthReducer.Reduce(s.auth, a)
                           && r(s, a).recipes == RecipeReducer.Reduce(s.recipes, a)
                           && r(s, a).shoppingList == ShoppingListReducer.Reduce(s.shoppingList, a)
                           && r(s, a).router == routerReducer(s.router, a)
    ensures forall s: AppState<R>, a: Action :: Valid(s) && AuthReducer.CarriesUid(a) ==> Valid(r(s, a))
  {
    (s: AppState<R>, a: Action) =>
      AppState(ShoppingListReducer.Reduce(s.shoppingList, a),
               RecipeReducer.Reduce(s.recipes, a),
               AuthReducer.Reduce(s.auth, a),
               routerReducer(s.router, a))
  }

  /** The state with the shopping list and the recipes put back to their initial states. */
  function Cleared<R(!new)>(s: AppState<R>): (r: AppState<R>)
    ensures r.auth == s.auth && r.router == s.router
  {
    s.(shoppingList := ShoppingListReducer.Initial, recipes := RecipeReducer.Initial)
  }

  /**
   * clearState: on a successful logout the wrapped reducer sees the cleared
   * state, otherwise the state as it is. So every other action is handled
   * exactly as before, and the result of a logout does not depend on the
   * recipes or the shopping list held before it.
   */
  function ClearState<R(!new)>(reducer: (AppState<R>, Action) -> AppState<R>): (r: (AppState<R>, Action) -> AppState<R>)
    ensures forall s: AppState<R>, a: Action :: !IsLogoutSuccess(a) ==> r(s, a) == reducer(s, a)
    ensures forall s: AppState<R>, t: AppState<R>, a :: IsLogoutSuccess(a) && s.auth == t.auth && s.router == t.router ==> r(s, a) == r(t, a)
  {
    (s: AppState<R>, a: Action) => reducer(if IsLogoutSuccess(a) then Cleared(s) else s, a)
  }

  /**
   * The reducer the store runs: the reducer map wrapped by the meta-reducer.
   * The auth and router slices always go to their reducers untouched, and
   * every slice's invariant is kept.
   */
  function Root<R(!new)>(routerReducer: (R, Action) -> R): (r: (AppState<R>, Action) -> AppState<R>)
    ensures forall s: AppState<R>, a: Action :: r(s, a).auth == AuthReducer.Reduce(s.auth, a) && r(s, a).router == routerReducer(s.router, a)
  {
    ClearState(Combine(routerReducer))
  }

  /** The cleared state keeps every slice's invariant. */
  lemma ClearedKeepsValid<R(!new)>(s: AppState<R>)
    requires Valid(s)
    ensures Valid(Cleared(s))
  {
    ShoppingListReducer.InitialIsEmpty();
    RecipeReducer.StopSyncingResets(s.recipes);
    assert RecipeReducer.Valid(RecipeReducer.Reduce(s.recipes, RecipeStopSyncing));
  }

  /** Every step of the store keeps each slice's invariant, logouts included. */
  lemma RootKeepsValid<R(!new)>(routerReducer: (R, Action) -> R)
    ensures forall s: AppState<R>, a: Action :: Valid(s) && AuthReducer.CarriesUid(a) ==> Valid(Root(routerReducer)(s, a))
  {
    forall s, a | Valid(s) && AuthReducer.CarriesUid(a)
      ensures Valid(ClearState(Combine(routerReducer))(s, a))
    {
      ClearedKeepsValid(s);
    }
  }

  /**
   * In every state the store reaches from the initial one, each slice keeps
   * its invariant, logouts included, as long as every SET_AUTHENTICATED
   * carries a uid.
   */
  lemma ReachableRootStatesAreValid<R(!new)>(routerReducer: (R, Action) -> R, router: R, actions: seq<Action>)
    requires forall i :: 0 <= i < |actions| ==> AuthReducer.CarriesUid(actions[i])
    ensures Valid(Replay(Root(routerReducer), InitialState(router), actions))
  {
    InitialStateIsValid(router);
    RootKeepsValid(routerReducer);
    ReplayPreserves(Root(routerReducer), Valid, AuthReducer.CarriesUid, InitialState(router), actions);
  }

  lemma InitialStateIsValid<R(!new)>(router: R)
    ensures Valid(InitialState(router))
  {
    AuthReducer.InitialIsSignedOut();
    ShoppingListReducer.InitialIsEmpty();
    RecipeReducer.StopSyncingResets(RecipeReducer.Initial);
    assert RecipeReducer.Valid(RecipeReducer.Reduce(RecipeReducer.Initial, RecipeStopSyncing));
  }

  /**
   * The meta-reducer only substitutes the state it hands on: for the logout
   * type the cleared state, for every other type the state unchanged.
   */
  lemma ClearStateDelegates<R(!new)>(reducer: (AppState<R>, Action) -> AppState<R>, s: AppState<R>, a: Action)
    ensures !IsLogoutSuccess(a) ==> ClearState(reducer)(s, a) == reducer(s, a)
    ensures IsLogoutSuccess(a) ==> ClearState(reducer)(s, a) == reducer(Cleared(s), a)
  {
  }

  /** Clearing twice is clearing once, and clearing leaves the auth and router slices alone. */
  lemma ClearedIsIdempotent<R(!new)>(s: AppState<R>)
    ensures Cleared(Cleared(s)) == Cleared(s)
    ensures Cleared(s).auth == s.auth && Cleared(s).router == s.router
    ensures Cleared(s).recipes == RecipeReducer.Initial
    ensures Cleared(s).shoppingList == ShoppingListReducer.Initial
  {
  }

  /**
   * After a successful logout the store holds the initial recipes and
   * shopping-list states, whatever they were, because neither feature
   * reducer handles that type; the auth slice is left as it was.
   */
  lemma LogoutSuccessClearsUserData<R(!new)>(routerReducer: (R, Action) -> R, s: AppState<R>, a: Action)
    requires IsLogoutSuccess(a)
    ensures Root(routerReducer)(s, a).recipes == RecipeReducer.Initial
    ensures Root(routerReducer)(s, a).shoppingList == ShoppingListReducer.Initial
    ensures Root(routerReducer)(s, a).auth == s.auth
    ensures Root(routerReducer)(s, a).router == routerReducer(s.router, a)
  {
    RecipeReducer.LogoutSuccessKeepsState(RecipeReducer.Initial, a);
    ShoppingListReducer.LogoutSuccessKeepsState(ShoppingListReducer.Initial, a);
    AuthReducer.LogoutSuccessKeepsState(s.auth, a);
    ClearStateDelegates(Combine(routerReducer), s, a);
  }

  /**
   * Each slice key is routed to its own reducer only: the next value of a
   * slice depends on nothing but that slice and the action.
   */
  lemma SlicesAreIndependent<R(!new)>(routerReducer: (R, Action) -> R, s: AppState<R>, t: AppState<R>, a: Action)
    ensures s.shoppingList == t.shoppingList ==> Combine(routerReducer)(s, a).shoppingList == Combine(routerReducer)(t, a).shoppingList
    ensures s.recipes == t.recipes ==> Combine(routerReducer)(s, a).recipes == Combine(routerReducer)(t, a).recipes
    ensures s.auth == t.auth ==> Combine(routerReducer)(s, a).auth == Combine(routerReducer)(t, a).auth
    ensures s.router == t.router ==> Combine(routerReducer)(s, a).router == Combine(routerReducer)(t, a).router
  {
  }
}
