/**
 * The actions dispatched to the store. An ngrx store hands every action to
 * every reducer, so one datatype holds the actions of all features; each
 * reducer handles its own constructors and returns its state unchanged for
 * the rest. The constructors are taken from the `case` labels of the four
 * reducers and from the declarations in the action files.
 */
module Actions {
  import opened Wrappers
  import opened Ingredients
  import opened RecipeModel

  /** The signed-in user reported by the authentication backend (src/app/auth/auth.model.ts). */
  datatype UserModel = UserModel(uid: Option<string>, email: Option<string>)

  /** The profile document of a user; the fields are the ones the profile reducer copies. */
  datatype ProfileModel = ProfileModel(
    name: Option<string>,
    surname: Option<string>,
    birthDate: Option<string>,
    profileImage: Option<string>)

  datatype Action =
    // src/app/auth/auth.actions.ts (the login and register payloads are not read by any reducer)
    | SetAuthenticated(user: UserModel)
    | SetUnauthenticated
    | Login
    | Logout
    | Register
    | LoginSuccessful
    | LogoutSuccessful
    | RegisterSuccessful
    | LoginError(message: string)
    | LogoutError(message: string)
    | RegisterError(message: string)
    | GetAuthentication
    | GetAuthenticationError(message: string)
    // src/app/recipe/recipe.actions.ts and the labels of recipeReducer
    | RecipesSync
    | RecipeSynced
    | RecipeErrorSync(message: string)
    | RecipeStopSyncing
    | RecipeStartLoading
    | RecipeStopLoading
    | RecipeError(message: string)
    | RecipeSelected(recipe: RecipeId)
    | NoRecipeSelected
    | RecipeAdded(recipe: RecipeId)
    | RecipeModified(recipe: RecipeId)
    | RecipeRemoved(recipe: RecipeId)
    // src/app/shopping-list/shopping-list.actions.ts
    | ShoppingListStartSyncing
    | ShoppingListStopSyncing
    | ShoppingListSynced
    | ShoppingListErrorSync(message: string)
    | ShoppingListStartLoading
    | ShoppingListStopLoading
    | ShoppingListError(message: string)
    | IngredientAdded(ingredient: IngredientId)
    | IngredientModified(ingredient: IngredientId)
    | IngredientRemoved(ingredient: IngredientId)
    // src/app/profile/profile.actions.ts
    | GetProfileData
    | SetProfileData(profile: ProfileModel)
    | StoreProfileData(profile: ProfileModel)
    | ErrorGettingProfileData(message: string)
    | ErrorSettingProfileData(message: string)
    /**
     * An action from elsewhere (the router, the store's own start-up),
     * carrying its type string. It stands only for type strings that no
     * action file of the app declares (see Foreign).
     */
    | Other(kind: string)

  /** The type string of the successful logout (LOGOUT_SUCESSFUL). */
  const LogoutSuccessfulType: string := "[Auth] User Logout Successful"

  /**
   * The `type` string of an action. The four recipe actions that the recipe
   * reducer handles but that no action file declares have no known string
   * and map to None.
   */
  function Type(a: Action): (r: Option<string>)
    ensures r == Some(LogoutSuccessfulType) ==> a == LogoutSuccessful || a.Other?
  {
    match a
    case SetAuthenticated(_) => Some("[Auth] Set Authenticated")
    case SetUnauthenticated => Some("[Auth] Set Unauthenticated")
    case Login => Some("[Auth] User Try Login")
    case Logout => Some("[Auth] User Try Logout")
    case Register => Some("[Auth] User Try Register")
    case LoginSuccessful => Some("[Auth] User Login Successful")
    case LogoutSuccessful => Some(LogoutSuccessfulType)
    case RegisterSuccessful => Some("[Auth] User Register Successful")
    case LoginError(_) => Some("[Auth] User Login Error")
    case LogoutError(_) => Some("[Auth] User Logout Error")
    case RegisterError(_) => Some("[Auth] User Register Error")
    case GetAuthentication => Some("[Auth] Get Authentication")
    case GetAuthenticationError(_) => Some("[Auth] Get Authentication Error")
    case RecipesSync => Some("[Recipes] Sync Recipes")
    case RecipeSynced => None
    case RecipeErrorSync(_) => None
    case RecipeStopSyncing => None
    case RecipeStartLoading => Some("[Recipes] Start Loading from Firebase")
    case RecipeStopLoading => Some("[Recipes] Stop Loading from Firebase")
    case RecipeError(_) => Some("[Recipes] Error")
    case RecipeSelected(_) => Some("[Recipes] Recipe selected")
    case NoRecipeSelected => None
    case RecipeAdded(_) => Some("[Recipes] Recipe added")
    case RecipeModified(_) => Some("[Recipes] Recipe modified")
    case RecipeRemoved(_) => Some("[Recipes] Recipe removed")
    case ShoppingListStartSyncing => Some("[Shopping List] Start Syncing Shopping List")
    case ShoppingListStopSyncing => Some("[Shopping List] Stop Syncing Shopping List")
    case ShoppingListSynced => Some("[Shopping List] Synced Shopping List")
    case ShoppingListErrorSync(_) => Some("[Shopping List] Error Syncing Shopping List")
    case ShoppingListStartLoading => Some("[Shopping List] Start Loading from Firebase")
    case ShoppingListStopLoading => Some("[Shopping List] Stop Loading from Firebase")
    case ShoppingListError(_) => Some("[Shopping List] Error")
    case IngredientAdded(_) => Some("[Shopping List] Ingredient added")
    case IngredientModified(_) => Some("[Shopping List] Ingredient modified")
    case IngredientRemoved(_) => Some("[Shopping List] Ingredient removed")
    case GetProfileData => Some("[Profile] Get Profile Data")
    case SetProfileData(_) => Some("[Profile] Set Profile Data")
    case StoreProfileData(_) => Some("[Profile] Store Profile Data")
    case ErrorGettingProfileData(_) => Some("[Profile] Error Getting Profile Data")
    case ErrorSettingProfileData(_) => Some("[Profile] Error Setting Profile Data")
    case Other(t) => Some(t)
  }

  /** The type strings the action files of the app declare. */
  const DeclaredTypes: set<string> := {
    "[Auth] Set Authenticated", "[Auth] Set Unauthenticated", "[Auth] User Try Login",
    "[Auth] User Try Logout", "[Auth] User Try Register", "[Auth] User Login Successful",
    LogoutSuccessfulType, "[Auth] User Register Successful", "[Auth] User Login Error",
    "[Auth] User Logout Error", "[Auth] User Register Error", "[Auth] Get Authentication",
    "[Auth] Get Authentication Error",
    "[Recipes] Sync Recipes", "[Recipes] Start Loading from Firebase", "[Recipes] Stop Loading from Firebase",
    "[Recipes] Error", "[Recipes] Recipe selected", "[Recipes] Recipe added", "[Recipes] Recipe modified",
    "[Recipes] Recipe removed",
    "[Shopping List] Start Syncing Shopping List", "[Shopping List] Stop Syncing Shopping List",
    "[Shopping List] Synced Shopping List", "[Shopping List] Error Syncing Shopping List",
    "[Shopping List] Start Loading from Firebase", "[Shopping List] Stop Loading from Firebase",
    "[Shopping List] Error", "[Shopping List] Ingredient added", "[Shopping List] Ingredient modified",
    "[Shopping List] Ingredient removed",
    "[Profile] Get Profile Data", "[Profile] Set Profile Data", "[Profile] Store Profile Data",
    "[Profile] Error Getting Profile Data", "[Profile] Error Setting Profile Data"
  }

  /**
   * An action as the store can receive it: a declared action is always its
   * own constructor, so `Other` never carries a declared type string.
   */
  predicate Foreign(a: Action)
  {
    a.Other? ==> a.kind !in DeclaredTypes
  }

  /** Every declared action with a known type string carries one of the declared strings. */
  lemma DeclaredActionsHaveDeclaredTypes(a: Action)
    requires !a.Other? && Type(a).Some?
    ensures Type(a).value in DeclaredTypes
  {
  }

  /** The test the logout-clearing meta-reducer applies to every action. */
  predicate IsLogoutSuccess(a: Action)
  {
    Type(a) == Some(LogoutSuccessfulType)
  }

  /**
   * Among the declared actions, only LOGOUT_SUCESSFUL carries the logout
   * type string; a foreign action triggers the test only by using that
   * same string.
   */
  lemma OnlyLogoutSuccessfulClears(a: Action)
    ensures IsLogoutSuccess(a) <==> a == LogoutSuccessful || a == Other(LogoutSuccessfulType)
  {
  }

  /** Among the actions the store can receive, only LOGOUT_SUCESSFUL passes the logout test. */
  lemma OnlyLogoutSuccessfulClearsForeign(a: Action)
    requires Foreign(a)
    ensures IsLogoutSuccess(a) <==> a == LogoutSuccessful
  {
    OnlyLogoutSuccessfulClears(a);
    assert LogoutSuccessfulType in DeclaredTypes;
  }

  /** The state a reducer reaches from `s` by handling `actions` one after another, as the store does. */
  function Replay<S>(reducer: (S, Action) -> S, s: S, actions: seq<Action>): S
    decreases |actions|
  {
    if actions == [] then s else Replay(reducer, reducer(s, actions[0]), actions[1..])
  }

  /**
   * A property that every handled action preserves (for the actions that
   * `admissible` accepts) holds after any sequence of such actions.
   */
  lemma {:induction false} ReplayPreserves<S(!new)>(reducer: (S, Action) -> S, inv: S -> bool,
                                                   admissible: Action -> bool, s: S, actions: seq<Action>)
    requires forall t, a :: inv(t) && admissible(a) ==> inv(reducer(t, a))
    requires inv(s)
    requires forall i :: 0 <= i < |actions| ==> admissible(actions[i])
    ensures inv(Replay(reducer, s, actions))
    decreases |actions|
  {
    if actions != [] {
      ReplayPreserves(reducer, inv, admissible, reducer(s, actions[0]), actions[1..]);
    }
  }
}
