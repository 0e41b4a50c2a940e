# recipe-me: store reducers, upsert service and paginator label in Dafny

This project models the state-transition core of the recipe-me web app,
a recipe book and shopping list kept in a document database, with
application state held in an ngrx store.

- **Reducers.** Each slice of the store (authentication, recipes, shopping
  list, profile) is a pure `Reduce(State, Action)` function over one
  app-wide `Action` datatype, as every ngrx reducer sees every action.
  `Replay` folds a reducer over a sequence of actions. The reachable-state
  invariants are proved over arbitrary action sequences.
- **Entity collections.** The recipes and the shopping list are an ordered
  `ids` list plus an `entities` map (`EntityAdapter`).
- **Root reducer and logout.** `AppReducer` holds the reducer map and the
  `clearState` meta-reducer, which resets the recipes and the shopping
  list when the user logs out.
- **Ingredient merge.** `Ingredients` models the rule that accumulates
  the amount of an ingredient added twice.
- **Data service.** `FirestoreService.CloudFirestoreService` is a class
  holding one remote collection (`FirestoreCollection.Collection`) and
  the two store slices it reports to. Its methods perform the service's
  writes one after another:
  - add, edit and delete;
  - search-then-edit-or-add and search-then-delete;
  - the bulk loops.

  Each write raises and lowers the loading flag and routes the error of
  a rejected write to the store chosen by its `Target`. The backend's
  answer to each write is a parameter: `None` for success,
  `Some(message)` for a rejection.
- **Paginator label.** `SpanishPaginator` models the label
  "<first> - <last> de <length>", with a decimal printer and a parser.
  The parser is used to prove the label's format.

The remote collection is a map from document id to document, where a
document is a map from field name to value. The backend hands out random
ids and lists documents in an order the code cannot rely on. The model
fixes one choice for both: ids come from a counter that only grows, and
documents are listed in ascending id order. Under that choice a new
document is listed last and "the first match" (`data[0]` of a search) is
the oldest match.

## Model

| member | source | states |
|---|---|---|
| Ingredients.WithId | src/app/shared/ingredient.model.ts:15-17 | A stored ingredient carries the given id and exactly the given ingredient fields. |
| Ingredients.AddIngredient | src/app/shared/ingredient.model.ts:18-29 | The merge keeps the stored name and unit, and ignores the added unit even when it differs. It grows the stored amount by exactly the added amount. |
| Ingredients.AddTwiceCommutes | src/app/shared/ingredient.model.ts:24-26 | Merging `a` then `b` into a stored ingredient gives the same result as `b` then `a`. Its amount is stored + a + b. |
| Ingredients.AddAll | src/app/shared/ingredient.model.ts:18-29 | Any sequence of merges written back under the same id keeps the id, the name and the unit. The amount ends as the stored amount plus the sum of the added amounts. |
| Ingredients.AddIngredientMonotone | src/app/shared/ingredient.model.ts:24-26 | With non-negative amounts, the merged amount is at least each input amount. |
| Actions.Type | src/app/auth/auth.actions.ts:7-19 | Among the declared actions, only LOGOUT_SUCESSFUL carries the logout-success type string. |
| Actions.OnlyLogoutSuccessfulClears | src/app/auth/auth.actions.ts:13 | An action carries the logout-success type string exactly when it is LOGOUT_SUCESSFUL, or a foreign action using that same string. |
| Actions.OnlyLogoutSuccessfulClearsForeign | src/app/auth/auth.actions.ts:13 | For declared actions and foreign ones (type strings no action file declares), an action carries the logout-success type exactly when it is LOGOUT_SUCESSFUL. |
| EntityAdapter.Empty | src/app/recipe/recipe.reducer.ts:28-32 | The initial collection has no ids and no entities, and satisfies the collection invariant. |
| EntityAdapter.AddOne | src/app/recipe/recipe.reducer.ts:76-84 | A new id is appended to `ids` with its entity. A present id leaves the collection as it is. Other entities are kept. The invariant is preserved. |
| EntityAdapter.UpdateOne | src/app/recipe/recipe.reducer.ts:86-100 | `ids` and the keys are unchanged. A present id takes the new entity. Every other entity is kept. The invariant is preserved. |
| EntityAdapter.RemoveOne | src/app/recipe/recipe.reducer.ts:102-110 | The id is in neither `ids` nor `entities`. Exactly that key is gone and the other ids and entities are kept. The invariant is preserved. |
| EntityAdapter.SelectById | src/app/recipe/recipe.reducer.ts:155-156 | The result is present exactly when the id is a key, and it is the stored entity. |
| AuthReducer.InitialIsSignedOut | src/app/auth/auth.reducer.ts:28-33 | The initial state is signed out and not loading, with uid and email null. It satisfies the session invariant. |
| AuthReducer.SetAuthenticatedSignsIn | src/app/auth/auth.reducer.ts:44-50 | SET_AUTHENTICATED gives: authenticated, not loading, uid and email from the payload, no error. The previous state plays no part. |
| AuthReducer.SignOutActions | src/app/auth/auth.reducer.ts:52-69 | SET_UNAUTHENTICATED and the three sign-in errors give: signed out, not loading, uid and email null. The errors record their payload; SET_UNAUTHENTICATED records none. |
| AuthReducer.LogoutErrorKeepsSession | src/app/auth/auth.reducer.ts:71-76 | LOGOUT_ERROR keeps the session and its uid and email, stops loading and records the error. |
| AuthReducer.PendingActionsOnlyRaiseLoading | src/app/auth/auth.reducer.ts:78-84 | LOGIN, REGISTER and GET_AUTHENTICATION set `isLoading` and change nothing else. |
| AuthReducer.UnhandledActionsKeepState | src/app/auth/auth.reducer.ts:86-87 | Every declared or foreign action outside the switch, including LOGOUT and the *_SUCESSFUL actions, returns the state unchanged. |
| AuthReducer.LogoutSuccessKeepsState | src/app/auth/auth.reducer.ts:86-87 | Any action carrying the logout-success type leaves the auth slice unchanged. |
| AuthReducer.Reduce | src/app/auth/auth.reducer.ts:41-88 | One step keeps the invariant "signed out exactly when uid and email are null", given a SET_AUTHENTICATED payload with a uid. Only SET_AUTHENTICATED signs a signed-out session in. |
| AuthReducer.ReachableStatesAreConsistent | src/app/auth/auth.reducer.ts:28-88 | That invariant holds after any action sequence from the initial state. |
| RecipeReducer.GetRecipeById | src/app/recipe/recipe.reducer.ts:155-156 | getRecipeById is present exactly when the id is stored, and returns the stored recipe. |
| RecipeReducer.StopSyncingResets | src/app/recipe/recipe.reducer.ts:58-59 | RECIPE_STOP_SYNCING returns the initial state (empty, not loading, not synced, nothing selected), whatever came before. Applying it twice equals applying it once. |
| RecipeReducer.SyncedOnlyMarksSynced | src/app/recipe/recipe.reducer.ts:47-48 | RECIPE_SYNCED sets `isSynced` and changes nothing else. |
| RecipeReducer.ErrorSyncKeepsRecipes | src/app/recipe/recipe.reducer.ts:50-56 | RECIPE_ERROR_SYNC stops loading, clears `isSynced`, records the error, and keeps the recipes and the selection. |
| RecipeReducer.ErrorKeepsSync | src/app/recipe/recipe.reducer.ts:67-68 | RECIPE_ERROR stops loading and records the error. `isSynced`, the recipes and the selection stay. |
| RecipeReducer.LoadingActionsOnlySetFlag | src/app/recipe/recipe.reducer.ts:61-65 | START_LOADING and STOP_LOADING set the loading flag and change nothing else. |
| RecipeReducer.SelectionOnlyTouchesSelected | src/app/recipe/recipe.reducer.ts:70-74 | RECIPE_SELECTED stores its payload and NO_RECIPE_SELECTED clears the selection. Nothing else changes. |
| RecipeReducer.ChangesDropErrorKeepFlags | src/app/recipe/recipe.reducer.ts:76-110 | ADDED, MODIFIED and REMOVED drop `error` and keep `isLoading`, `isSynced` and `recipeSelected`. |
| RecipeReducer.GetRecipeByIdAfterAdded | src/app/recipe/recipe.reducer.ts:76-84 | After RECIPE_ADDED of a new id, getRecipeById returns the payload. A present id keeps its recipe, and every other id is unaffected. |
| RecipeReducer.GetRecipeByIdAfterModified | src/app/recipe/recipe.reducer.ts:86-100 | After RECIPE_MODIFIED, a present id returns the payload and a missing id still returns nothing. Every other id is unaffected. |
| RecipeReducer.GetRecipeByIdAfterRemoved | src/app/recipe/recipe.reducer.ts:102-110 | After RECIPE_REMOVED, getRecipeById returns nothing for that id. Every other id is unaffected. |
| RecipeReducer.UnhandledActionsKeepState | src/app/recipe/recipe.reducer.ts:112-113 | Declared or foreign actions outside the switch return the state unchanged. |
| RecipeReducer.LogoutSuccessKeepsState | src/app/recipe/recipe.reducer.ts:112-113 | Any action carrying the logout-success type leaves the recipe slice unchanged. |
| RecipeReducer.Reduce | src/app/recipe/recipe.reducer.ts:41-115 | Every action keeps the collection invariant: no duplicate id, `ids` lists exactly the keys, and each recipe is stored under its own id. Only ADDED, MODIFIED, REMOVED and STOP_SYNCING change the recipes. |
| RecipeReducer.ReachableStatesAreValid | src/app/recipe/recipe.reducer.ts:28-115 | The invariant holds after any action sequence from the initial state. |
| ShoppingListReducer.GetIngredientById | src/app/shopping-list/shopping-list.reducer.ts:115-116 | The lookup is present exactly when the id is stored, and returns the stored ingredient. |
| ShoppingListReducer.InitialIsEmpty | src/app/shopping-list/shopping-list.reducer.ts:27-29 | The initial state has no ids, no entities and no error, and is not loading. |
| ShoppingListReducer.LoadingActionsOnlySetFlag | src/app/shopping-list/shopping-list.reducer.ts:44-48 | START_LOADING and STOP_LOADING set the flag. The list and the error stay. |
| ShoppingListReducer.ErrorKeepsList | src/app/shopping-list/shopping-list.reducer.ts:50-51 | SHOPPING_LIST_ERROR stops loading and records its payload. The list stays. |
| ShoppingListReducer.ChangesDropErrorKeepLoading | src/app/shopping-list/shopping-list.reducer.ts:55-83 | The three change actions drop `error` and keep `isLoading`. |
| ShoppingListReducer.RemovedIsGone | src/app/shopping-list/shopping-list.reducer.ts:77-83 | INGREDIENT_REMOVED leaves the id in neither `ids` nor `entities`. Every other ingredient and id is untouched. |
| ShoppingListReducer.ModifiedKeepsIds | src/app/shopping-list/shopping-list.reducer.ts:63-75 | INGREDIENT_MODIFIED keeps `ids` and the keys, and replaces only the ingredient under the payload's id. |
| ShoppingListReducer.AddedAppendsNewId | src/app/shopping-list/shopping-list.reducer.ts:55-61 | INGREDIENT_ADDED appends a new id with its payload. A present id leaves the list as it is. |
| ShoppingListReducer.UnhandledActionsKeepState | src/app/shopping-list/shopping-list.reducer.ts:85-86 | Declared or foreign actions outside the switch, the four syncing actions among them, return the state unchanged. |
| ShoppingListReducer.LogoutSuccessKeepsState | src/app/shopping-list/shopping-list.reducer.ts:85-86 | Any action carrying the logout-success type leaves the shopping-list slice unchanged. |
| ShoppingListReducer.Reduce | src/app/shopping-list/shopping-list.reducer.ts:38-88 | Every action keeps the invariant: no duplicate id, `ids` lists exactly the keys, and each ingredient is keyed by its id. Only the three change actions change the list. |
| ShoppingListReducer.ReachableStatesAreValid | src/app/shopping-list/shopping-list.reducer.ts:27-88 | The invariant holds after any action sequence from the initial state. |
| ProfileReducer.InitialProfile | src/app/profile/profile.reducer.ts:20-26 | The initial state: name, surname and birth date null, the default image, not loading, no error. |
| ProfileReducer.Reduce | src/app/profile/profile.reducer.ts:34-65 | Only STORE_PROFILE_DATA changes the profile (name, surname, birth date, image). The error changes only under STORE_PROFILE_DATA and the two profile errors. |
| ProfileReducer.RequestsOnlyRaiseLoading | src/app/profile/profile.reducer.ts:37-46 | GET_PROFILE_DATA and SET_PROFILE_DATA set `isLoading` and keep the profile and the error. |
| ProfileReducer.StoreReplacesProfile | src/app/profile/profile.reducer.ts:47-54 | STORE_PROFILE_DATA shows exactly the payload, stops loading and drops the error. |
| ProfileReducer.ErrorsKeepProfile | src/app/profile/profile.reducer.ts:55-61 | Both profile errors keep the profile, stop loading and record their payload. |
| ProfileReducer.UnhandledActionsKeepState | src/app/profile/profile.reducer.ts:62-63 | Any other declared or foreign action returns the state unchanged. |
| ProfileReducer.GetThenStoreShowsPayload | src/app/profile/profile.reducer.ts:37-54 | GET followed by STORE ends not loading, showing the payload, with no error. |
| AppReducer.Cleared | src/app/app.reducer.ts:26-31 | The clearing substitution leaves the auth and router slices as they were. |
| AppReducer.Combine | src/app/app.reducer.ts:15-20 | The reducer map routes each key to its own reducer: auth, recipes, shopping list and router are each their reducer's result. One step keeps the app invariant, given a SET_AUTHENTICATED payload with a uid. |
| AppReducer.ClearState | src/app/app.reducer.ts:23-35 | Every action type except logout success reaches the wrapped reducer unchanged. For logout success, the result depends only on the auth and router slices, whatever the recipes and shopping list were. |
| AppReducer.Root | src/app/app.reducer.ts:15-37 | The store's reducer (the map wrapped by `clearState`) hands the auth and router slices to their own reducers for every action, logout success included. |
| AppReducer.ClearedKeepsValid | src/app/app.reducer.ts:26-31 | Resetting the recipes and shopping list keeps the app invariant. |
| AppReducer.InitialStateIsValid | src/app/app.reducer.ts:15-20 | The initial root state satisfies the app invariant. |
| AppReducer.RootKeepsValid | src/app/app.reducer.ts:15-37 | Each step of the store's reducer keeps the app invariant: both collection invariants and the session invariant. |
| AppReducer.ReachableRootStatesAreValid | src/app/app.reducer.ts:15-37 | The app invariant holds after any action sequence from the initial root state. |
| AppReducer.ClearStateDelegates | src/app/app.reducer.ts:23-35 | For the logout type, the wrapped reducer sees the cleared state. For every other type, `clearState(r)(s, a) == r(s, a)`. |
| AppReducer.ClearedIsIdempotent | src/app/app.reducer.ts:26-31 | Clearing twice is clearing once. Recipes and shopping list become their initial states; auth and router stay. |
| AppReducer.LogoutSuccessClearsUserData | src/app/app.reducer.ts:15-35 | After logout success the root state holds the initial recipes and shopping list, because no feature reducer handles that type. The auth slice is unchanged and the router gets the action. |
| AppReducer.SlicesAreIndependent | src/app/app.reducer.ts:15-20 | A slice's next value depends only on that slice and the action, never on another slice. |
| FirestoreCollection.SearchIn | src/app/shared/cloud-firestore.service.ts:224-249 | The result is exactly the listed documents whose field equals the value, each paired with its id, in listing order. |
| FirestoreCollection.SearchInIncreasing | src/app/shared/cloud-firestore.service.ts:224-249 | The search keeps the listing order: its ids are increasing whenever the listing's are. |
| FirestoreCollection.Search | src/app/shared/cloud-firestore.service.ts:224-249 | Every result is a stored document, with its data, holding the element's value of the field. On a well-formed collection every holder is found. |
| FirestoreCollection.Add | src/app/shared/cloud-firestore.service.ts:127-131 | The element becomes one new document under the fresh id. Existing documents are kept. |
| FirestoreCollection.AddKeepsValid | src/app/shared/cloud-firestore.service.ts:127-131 | The fresh id is absent and greater than every listed id, so the listing stays in id order. |
| FirestoreCollection.Update | src/app/shared/cloud-firestore.service.ts:191-196 | The named fields take the new values and the document's other fields stay. The document gains no field beyond its old ones and the named ones. Other documents and the listing are unchanged. |
| FirestoreCollection.Delete | src/app/shared/cloud-firestore.service.ts:158-163 | Exactly that document is gone; a missing id changes nothing. The listing stays well formed. |
| FirestoreCollection.UniqueMatchIsFirst | src/app/shared/cloud-firestore.service.ts:273-274 | Under a unique field, a document holding the value is the only search result, so it is `data[0]`. |
| FirestoreCollection.NoHolderNoMatch | src/app/shared/cloud-firestore.service.ts:224-249 | When no document holds the value, the search is empty. |
| FirestoreCollection.NoMatchMeansAbsent | src/app/shared/cloud-firestore.service.ts:224-249 | An empty search means no document holds the value. |
| FirestoreCollection.AddIfAbsent | src/app/shared/cloud-firestore.service.ts:260-282 | Exactly one document is written: the first match, or the fresh id when nothing matches. It then holds every field of the element. Every other document stays, and the listing only grows at its end. |
| FirestoreCollection.CustomAddIfAbsent | src/app/shared/cloud-firestore.service.ts:296-323 | Exactly one document is written: the first match, or the fresh id. It then has the searched field. Every other document stays, and the listing only grows at its end. |
| FirestoreCollection.DeleteIfExists | src/app/shared/cloud-firestore.service.ts:332-356 | At most one document is deleted, and it held the element's value. No document is added and the remaining ones are unchanged. |
| FirestoreCollection.AddIfAbsentOverwritesOrAdds | src/app/shared/cloud-firestore.service.ts:260-282 | With a match, only the first match takes the element's fields and nothing is added. With none, exactly one new document equal to the element is added. |
| FirestoreCollection.AddIfAbsentKeepsUnique | src/app/shared/cloud-firestore.service.ts:251-282 | If no two documents shared the field's value before the upsert, none do after it. |
| FirestoreCollection.OverwriteKeepsUnique | src/app/shared/cloud-firestore.service.ts:273-274 | Writing fields that keep a document's value of a unique field keeps the field unique. |
| FirestoreCollection.AddOfNewValueKeepsUnique | src/app/shared/cloud-firestore.service.ts:275-276 | Adding a document with a value no document holds keeps the field unique. |
| FirestoreCollection.UpsertOfHeldFieldsChangesNothing | src/app/shared/cloud-firestore.service.ts:260-282 | Under a unique field, upserting fields a document already holds leaves the collection equal to what it was. |
| FirestoreCollection.AddIfAbsentIdempotent | src/app/shared/cloud-firestore.service.ts:260-282 | Under a unique field, upserting the same element twice equals upserting it once. |
| FirestoreCollection.CustomAddIfAbsentOverwritesOrAdds | src/app/shared/cloud-firestore.service.ts:286-323 | On any well-formed collection: with a match, only the first match is written, as its old fields merged with `addMethod(data[0], element)`, and nothing is added. With none, exactly one new document equal to the element is added. |
| FirestoreCollection.CustomAddIfAbsentKeepsUnique | src/app/shared/cloud-firestore.service.ts:296-323 | The custom upsert keeps the collection well formed and the field unique when `addMethod` keeps the field's value. |
| FirestoreCollection.DeleteIfExistsRemovesValue | src/app/shared/cloud-firestore.service.ts:332-356 | Under a unique field: the collection stays well formed, no document holds the value afterwards, and a match removes exactly one document while no match changes nothing. |
| FirestoreCollection.DeleteIfExistsDeletesFirstMatch | src/app/shared/cloud-firestore.service.ts:332-356 | On any collection: with a match, exactly the first match is deleted and every other document stays. With none, nothing changes. |
| FirestoreCollection.Listing | src/app/shared/cloud-firestore.service.ts:102-119 | Every listed document with its id and data, in listing order. |
| FirestoreCollection.AddAllIfAbsent | src/app/shared/cloud-firestore.service.ts:379-388 | The bulk upsert removes no document and only extends the listing. |
| FirestoreCollection.CustomAddAllIfAbsent | src/app/shared/cloud-firestore.service.ts:402-418 | The bulk custom upsert removes no document and only extends the listing. |
| FirestoreCollection.AddAll | src/app/shared/cloud-firestore.service.ts:426-430 | The listing gains, in order, one consecutive fresh id per successful write, and the id counter advances by the number of successes. |
| FirestoreCollection.DeleteAll | src/app/shared/cloud-firestore.service.ts:439-452 | The bulk delete adds no document, keeps the id counter, and leaves every remaining document unchanged. |
| FirestoreCollection.AddAllIfAbsentKeepsUnique | src/app/shared/cloud-firestore.service.ts:379-388 | The bulk upsert, one element at a time, keeps the collection well formed and the field unique. |
| FirestoreCollection.CustomAddAllIfAbsentKeepsUnique | src/app/shared/cloud-firestore.service.ts:402-418 | The bulk custom upsert keeps the field unique when `addMethod` keeps its value. |
| FirestoreCollection.AddAllAddsSuccesses | src/app/shared/cloud-firestore.service.ts:426-430 | addElements adds one new document per successful write: the k-th fresh id holds the k-th element whose write succeeded. Existing documents are untouched and the collection stays well formed. |
| FirestoreCollection.DeleteAllRemovesDeleted | src/app/shared/cloud-firestore.service.ts:439-452 | Every id whose delete succeeds is gone. Every other document stays as it was. |
| FirestoreCollection.DeleteAllListedLeavesFailures | src/app/shared/cloud-firestore.service.ts:439-452 | After deleting the snapshot taken at call time, exactly the documents whose delete failed remain. If none failed, none remain. |
| FirestoreService.LastFailureIsLast | src/app/shared/cloud-firestore.service.ts:79-87 | The error a run of writes leaves is absent exactly when every write succeeds. Otherwise it is the last rejection. |
| FirestoreService.CloudFirestoreService.constructor | src/app/shared/cloud-firestore.service.ts:22-27 | The service starts over the given collection, with both slices in their initial states and nothing dispatched. |
| FirestoreService.CloudFirestoreService.Dispatch | src/app/shared/cloud-firestore.service.ts:81-83 | The store dispatch: each slice becomes its reducer's result for the action, and the action is logged. |
| FirestoreService.CloudFirestoreService.StartLoading | src/app/shared/cloud-firestore.service.ts:54-78 | A start action is dispatched only when the target store is idle. It ends loading, its error unchanged; the other store is untouched. |
| FirestoreService.CloudFirestoreService.StopLoading | src/app/shared/cloud-firestore.service.ts:29-53 | A stop action is dispatched only when the target store is loading. It ends idle, its error unchanged. |
| FirestoreService.CloudFirestoreService.RegisterError | src/app/shared/cloud-firestore.service.ts:79-87 | The error action goes to the target store only, which records the message and stops loading. |
| FirestoreService.CloudFirestoreService.SearchElement | src/app/shared/cloud-firestore.service.ts:224-249 | Exactly the documents whose field equals the element's, paired with their ids, in listing order. |
| FirestoreService.CloudFirestoreService.GetCollectionWithId | src/app/shared/cloud-firestore.service.ts:102-119 | The ids of the result are the listing, and each entry carries its document's data. |
| FirestoreService.CloudFirestoreService.GetCollection | src/app/shared/cloud-firestore.service.ts:93-95 | The data of every document, without ids, in listing order. |
| FirestoreService.CloudFirestoreService.GetElement | src/app/shared/cloud-firestore.service.ts:364-369 | The document's data is present exactly when the document exists. |
| FirestoreService.CloudFirestoreService.AddElement | src/app/shared/cloud-firestore.service.ts:127-150 | Success adds the element. Failure leaves the collection alone and records "Error al guardar el elemento en Cloud Firestore: " + message. Either way the loading flag ends false, dispatched as start-if-idle, stop, error. |
| FirestoreService.CloudFirestoreService.DeleteElement | src/app/shared/cloud-firestore.service.ts:158-182 | Success deletes the document. Failure records the "Error al borrar…" message. The loading flag ends false, with the same dispatch sequence. |
| FirestoreService.CloudFirestoreService.EditElement | src/app/shared/cloud-firestore.service.ts:191-215 | Success merges the fields into the document. Failure records the "Error al editar…" message. The loading flag ends false. |
| FirestoreService.CloudFirestoreService.AddElementCheckingIfExists | src/app/shared/cloud-firestore.service.ts:260-282 | Success gives the upsert of the element (edit the first match or add). Failure records the edit or save error of the write chosen. The dispatch sequence is exact. |
| FirestoreService.CloudFirestoreService.CustomAddElementCheckingIfExists | src/app/shared/cloud-firestore.service.ts:296-323 | Success writes `addMethod(data[0], element)` over the first match, or adds the element. Failure records the error of the write chosen. |
| FirestoreService.CloudFirestoreService.DeleteElementCheckingIfExists | src/app/shared/cloud-firestore.service.ts:332-356 | A match deletes the first match (or records the delete error). No match leaves the collection and records "El elemento a borrar no existe en Cloud Firestore". |
| FirestoreService.CloudFirestoreService.AddElementsCheckingIfExists | src/app/shared/cloud-firestore.service.ts:379-388 | The collection becomes the element-by-element upsert, skipping rejected writes. The store's error is the last rejection. |
| FirestoreService.CloudFirestoreService.CustomAddElementsCheckingIfExists | src/app/shared/cloud-firestore.service.ts:402-418 | The collection becomes the element-by-element custom upsert. The store's error is the last rejection. |
| FirestoreService.CloudFirestoreService.AddElements | src/app/shared/cloud-firestore.service.ts:426-430 | Every element whose write succeeds is added, in order. The error is the save error of the last rejection. |
| FirestoreService.CloudFirestoreService.DeleteCollection | src/app/shared/cloud-firestore.service.ts:439-452 | Every document listed at call time is deleted unless its delete fails. The error is the delete error of the last rejection, and the store ends idle. |
| SpanishPaginator.Digits | src/app/material/spanish-paginator-intl.ts:6 | A number is printed as decimal digits without leading zeros. |
| SpanishPaginator.ValueOfDigits | src/app/material/spanish-paginator-intl.ts:6 | Reading a printed number back gives the number. |
| SpanishPaginator.Bounds | src/app/material/spanish-paginator-intl.ts:6 | The first position is at least 1, the range spans exactly pageSize positions, and page 0 starts at 1. |
| SpanishPaginator.ConsecutivePagesAdjoin | src/app/material/spanish-paginator-intl.ts:6 | Page p + 1 starts right after page p ends, so consecutive labels neither overlap nor leave a gap. |
| SpanishPaginator.ParseJoinedNumerals | src/app/material/spanish-paginator-intl.ts:5-7 | Any three numerals joined as "a - b de c" parse back to their values. |
| SpanishPaginator.RangeLabel | src/app/material/spanish-paginator-intl.ts:4-8 | The label is "<first> - <last> de <length>": reading it back yields page*pageSize + 1, page*pageSize + pageSize and `length` as given. |
| SpanishPaginator.LastPageOverrunsLength | src/app/material/spanish-paginator-intl.ts:6 | The last number is not clamped: page 2 of 23 items at 10 per page reads "21 - 30 de 23". |
| SpanishPaginator.ClampedBoundsWithinLength | src/app/material/spanish-paginator-intl.ts:6 | Corrected bounds: on a page that holds items, first <= last <= length, and the span is the number of items on the page. |
| SpanishPaginator.ClampedBoundsAgreeOnFullPages | src/app/material/spanish-paginator-intl.ts:6 | On every full page the corrected bounds equal the source's. |

## Left out

- Effects (src/app/*/\*.effects.ts) are not part of this model. They are asynchronous RxJS plumbing over database listeners, and would only generate reducer inputs.
- Components, forms, dialogs, routing modules, guards and NgModules are not part of this model (UI and dependency-injection glue).
- The cloud functions (functions/src/src/index.ts) are not part of this model.
- Selector memoisation is left out. Selectors are plain field projections (`GetRecipeById`, `GetIngredientById`, `IsLoading`, `Error`).
- Snackbar messages of the message service are left out, 'Colección borrada.' included. Only the store-side effects of each write are modelled.
- `Number(...)` coercion and floating-point addition in `addIngredient` are left out. Amounts are unbounded integers.
- The router slice's reducer belongs to the router library. It is a parameter of `AppReducer.Root`.
- The entity adapter library is not part of this model. Its add, update and remove follow the assumed semantics in `EntityAdapter`: add ignores a present id; update ignores a missing id, and its complete payload with the same id replaces the entity; remove ignores a missing id.
- The four recipe actions the reducer handles but the action file does not declare (RECIPE_SYNCED, RECIPE_ERROR_SYNC, RECIPE_STOP_SYNCING, NO_RECIPE_SELECTED) have no known type string. `Actions.Type` returns None for them, so they never match the logout string. Elsewhere the action set follows the reducers' `case` labels, not the action files, where the two differ.
- Document ids are natural numbers from a growing counter. They stand for the backend's random string ids, and ascending id order stands for its listing order. This fixes "the first match" (`data[0]`) to the oldest match; in the source, when several documents match, which one is `data[0]` is not determined.
- `Actions.Other` stands only for action types that no action file declares (`Actions.Foreign`). A dispatch of a plain object whose type string equals a declared type is not modelled apart from the declared action. The "unchanged" lemmas for actions outside a switch require `Foreign`; the reachable-state invariants hold for every action, foreign or not.
- Documents are assumed to hold no field named `id`. The source builds each match as `{ id, ...data }` (src/app/shared/cloud-firestore.service.ts:111, 245), so a stored `id` field would replace the document id that later edits and deletes use (lines 274, 313, 344, 446). `FirestoreCollection.Match` keeps the document id and the data apart. The app's callers write form values and merged ingredients, which have no `id` field.
- Concurrency in the bulk loops is left out. In the source, the searches of `addElementsCheckingIfExists` and `customAddElementsCheckingIfExists` overlap and can race into duplicates. The model performs the elements one after another, so its uniqueness results do not cover the racing source.
- Asynchrony of every write is left out: promises, `.then`/`.catch` ordering, and `take(1)` reads of the loading flag. Each write completes before the next starts.
- The `catchError` re-subscription of `getCollectionWithID` is left out, and so are failures of the search itself. Only write failures are modelled.
- FirestoreService.CloudFirestoreService.EditElement: the backend answer is required to be a failure when the document does not exist, as the backend rejects updates of missing documents.
- FirestoreService.CloudFirestoreService.Valid: it states only that the remote collection is well formed. It does not state that each slice is the replay of the dispatched actions; that relation is left out.
- FirestoreService.CloudFirestoreService.AddElementsCheckingIfExists: the dispatched actions are not itemised (only the single-write methods state their exact dispatch sequence). The error is stated as the edit or save error carrying the last rejection's message, without saying which of the two.
- FirestoreService.CloudFirestoreService.CustomAddElementsCheckingIfExists: the dispatched actions are not itemised. The error is stated as the edit or save error carrying the last rejection's message, without saying which of the two.
- FirestoreService.CloudFirestoreService.AddElements: the dispatched actions are not itemised.
- FirestoreService.CloudFirestoreService.DeleteCollection: the dispatched actions are not itemised. The success snackbar is left out.
- `getSpanishPaginatorIntl` (src/app/material/spanish-paginator-intl.ts:10-19) is left out. It only assigns label strings on a library object.

## Findings

| source | as written | input that shows it | evidently intended | confidence | as-written member | corrected member |
|---|---|---|---|---|---|---|
| src/app/material/spanish-paginator-intl.ts:6 | The last number of the range is `page * pageSize + pageSize`, never clamped to `length`. | page 2, pageSize 10, length 23 gives "21 - 30 de 23". | The last position shown is `min(page*pageSize + pageSize, length)` on a page holding items, so the label reads "21 - 23 de 23". | not executed | SpanishPaginator.LastPageOverrunsLength | SpanishPaginator.ClampedBoundsWithinLength |
