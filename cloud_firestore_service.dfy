/**
 * The data service of src/app/shared/cloud-firestore.service.ts. It holds
 * one remote collection and the store's shopping-list and recipe slices.
 * Every write first raises the loading flag of the store its `state`
 * argument names, then lowers it when the backend answers, and on failure
 * routes an error message to that store.
 *
 * The backend's answer to each write is a parameter: `failure` is None when
 * the write succeeds and Some(message) when it is rejected with that
 * message. The operations run one after another, each completing before
 * the next starts.
 */
module FirestoreService {
  import opened Wrappers
  import opened Actions
  import opened FirestoreCollection
  import ShoppingListReducer
  import RecipeReducer

  /** The store an operation reports to (the `States` enum). */
  datatype Target = ShoppingList | Recipes

  /** The writes whose rejection the service reports, each under its own message. */
  datatype Write = Save | Remove | Edit

  /** The text the service puts before the backend's error message. */
  function ErrorPrefix(w: Write): string
  {
    match w
    case Save => "Error al guardar el elemento en Cloud Firestore: "
    case Remove => "Error al borrar el elemento en Cloud Firestore: "
    case Edit => "Error al editar el elemento en Cloud Firestore: "
  }

  /** The error reported when write `w` is rejected with `message`. */
  function Failed(w: Write, message: string): string
  {
    ErrorPrefix(w) + message
  }

  /** What deleteElementCheckingIfExists reports when no document matches. */
  const NotFoundMessage: string := "El elemento a borrar no existe en Cloud Firestore"

  function StartLoadingAction(t: Target): Action
  {
    match t
    case ShoppingList => ShoppingListStartLoading
    case Recipes => RecipeStartLoading
  }

  function StopLoadingAction(t: Target): Action
  {
    match t
    case ShoppingList => ShoppingListStopLoading
    case Recipes => RecipeStopLoading
  }

  function ErrorAction(t: Target, message: string): Action
  {
    match t
    case ShoppingList => ShoppingListError(message)
    case Recipes => RecipeError(message)
  }

  /** What startLoading dispatches: a start action only when the store is not loading yet. */
  function StartIfIdle(t: Target, isLoading: bool): seq<Action>
  {
    if isLoading then [] else [StartLoadingAction(t)]
  }

  /** What a rejected write reports to the store: its error message after the operation's prefix. */
  function Reported(t: Target, w: Write, failure: Option<string>): seq<Action>
  {
    if failure.Some? then [ErrorAction(t, Failed(w, failure.value))] else []
  }

  /** The write an upsert makes: an edit when a document matches, an add otherwise. */
  function UpsertWrite<V(==)>(c: Collection<V>, element: Doc<V>, fieldPath: string): Write
    requires fieldPath in element
  {
    if |Search(c, element, fieldPath)| != 0 then Edit else Save
  }

  /** The last rejection among a run of answers, which is the error the store is left with. */
  function LastFailure(failures: seq<Option<string>>): Option<string>
    decreases |failures|
  {
    if failures == [] then None
    else if failures[|failures| - 1].Some? then failures[|failures| - 1]
    else LastFailure(failures[..|failures| - 1])
  }

  lemma LastFailureStep(failures: seq<Option<string>>, i: nat)
    requires i < |failures|
    ensures LastFailure(failures[..i + 1]) == if failures[i].Some? then failures[i] else LastFailure(failures[..i])
  {
    assert failures[..i + 1][..i] == failures[..i];
  }

  /** LastFailure is None exactly when every write succeeds, and otherwise the last rejection. */
  lemma {:induction false} LastFailureIsLast(failures: seq<Option<string>>)
    ensures LastFailure(failures).None? <==> forall i :: 0 <= i < |failures| ==> failures[i].None?
    ensures LastFailure(failures).Some? ==>
              exists i :: 0 <= i < |failures| && failures[i] == LastFailure(failures)
                          && forall j :: i < j < |failures| ==> failures[j].None?
    decreases |failures|
  {
    if failures != [] {
      var n := |failures| - 1;
      LastFailureIsLast(failures[..n]);
      assert forall i :: 0 <= i < n ==> failures[..n][i] == failures[i];
      if failures[n].None? && LastFailure(failures).Some? {
        var i :| 0 <= i < n && failures[..n][i] == LastFailure(failures[..n])
                 && forall j :: i < j < n ==> failures[..n][j].None?;
        assert failures[i] == LastFailure(failures);
      }
    }
  }

  /** The store's error is the one an upsert reports for a rejected write with this message. */
  predicate UpsertReported(error: Option<string>, message: string)
  {
    error == Some(Failed(Edit, message)) || error == Some(Failed(Save, message))
  }

  class CloudFirestoreService<V(==)> {
    /** The backend collection the service writes to. */
    var remote: Collection<V>
    /** The store's shopping-list slice. */
    var shoppingList: ShoppingListReducer.State
    /** The store's recipe slice. */
    var recipes: RecipeReducer.State
    /** Every action the service has dispatched, in order. */
    ghost var dispatched: seq<Action>

    /** The remote collection is well formed. */
    ghost predicate Valid()
      reads this
    {
      && FirestoreCollection.Valid(remote)
    }

    /** The target store's loading flag (getIsLoading). */
    function IsLoading(t: Target): bool
      reads this
    {
      match t
      case ShoppingList => shoppingList.isLoading
      case Recipes => recipes.isLoading
    }

    /** The target store's error. */
    function Error(t: Target): Option<string>
      reads this
    {
      match t
      case ShoppingList => shoppingList.error
      case Recipes => recipes.error
    }

    /** The other store is as given, and the target store differs from the given one at most in its loading flag and error. */
    predicate OnlyFlagsDiffer(t: Target, shoppingList0: ShoppingListReducer.State, recipes0: RecipeReducer.State)
      reads this
    {
      match t
      case ShoppingList =>
        && recipes == recipes0
        && shoppingList == shoppingList0.(isLoading := shoppingList.isLoading, error := shoppingList.error)
      case Recipes =>
        && shoppingList == shoppingList0
        && recipes == recipes0.(isLoading := recipes.isLoading, error := recipes.error)
    }

    constructor (c: Collection<V>)
      requires FirestoreCollection.Valid(c)
      ensures Valid() && remote == c && dispatched == []
      ensures shoppingList == ShoppingListReducer.Initial && recipes == RecipeReducer.Initial
    {
      remote := c;
      shoppingList := ShoppingListReducer.Initial;
      recipes := RecipeReducer.Initial;
      dispatched := [];
    }

    /** The store's dispatch: every reducer handles the action. */
    method Dispatch(a: Action)
      requires Valid()
      modifies this
      ensures Valid() && remote == old(remote) && dispatched == old(dispatched) + [a]
      ensures shoppingList == ShoppingListReducer.Reduce(old(shoppingList), a)
      ensures recipes == RecipeReducer.Reduce(old(recipes), a)
    {
      shoppingList := ShoppingListReducer.Reduce(shoppingList, a);
      recipes := RecipeReducer.Reduce(recipes, a);
      dispatched := dispatched + [a];
    }

    /** startLoading: dispatches a start action only when the store is idle; the store ends up loading. */
    method StartLoading(t: Target)
      requires Valid()
      modifies this
      ensures Valid() && remote == old(remote)
      ensures dispatched == old(dispatched) + StartIfIdle(t, old(IsLoading(t)))
      ensures IsLoading(t) && Error(t) == old(Error(t))
      ensures OnlyFlagsDiffer(t, old(shoppingList), old(recipes))
    {
      if !IsLoading(t) {
        Dispatch(StartLoadingAction(t));
      }
    }

    /** stopLoading: dispatches a stop action only when the store is loading; the store ends up idle. */
    method StopLoading(t: Target)
      requires Valid()
      modifies this
      ensures Valid() && remote == old(remote)
      ensures dispatched == old(dispatched) + (if old(IsLoading(t)) then [StopLoadingAction(t)] else [])
      ensures !IsLoading(t) && Error(t) == old(Error(t))
      ensures OnlyFlagsDiffer(t, old(shoppingList), old(recipes))
    {
      if IsLoading(t) {
        Dispatch(StopLoadingAction(t));
      }
    }

    /** registerError: the error goes to the target store only, which also stops loading. */
    method RegisterError(t: Target, message: string)
      requires Valid()
      modifies this
      ensures Valid() && remote == old(remote)
      ensures dispatched == old(dispatched) + [ErrorAction(t, message)]
      ensures !IsLoading(t) && Error(t) == Some(message)
      ensures OnlyFlagsDiffer(t, old(shoppingList), old(recipes))
    {
      Dispatch(ErrorAction(t, message));
    }

    /** searchElement: the documents whose field equals the element's, each with its id, in listing order. */
    function SearchElement(element: Doc<V>, fieldPath: string): (r: seq<Match<V>>)
      requires Valid() && fieldPath in element
      reads this
      ensures forall m :: m in r ==> m.id in remote.docs && m.data == remote.docs[m.id]
                                     && HasValue(m.data, fieldPath, element[fieldPath])
      ensures forall id :: id in remote.docs && HasValue(remote.docs[id], fieldPath, element[fieldPath]) ==> id in IdsOf(r)
      ensures Increasing(IdsOf(r))
    {
      SearchInIncreasing(remote.order, remote.docs, fieldPath, element[fieldPath]);
      Search(remote, element, fieldPath)
    }

    /** getCollectionWithID: every document with its id, in listing order. */
    function GetCollectionWithId(): (r: seq<Match<V>>)
      requires Valid()
      reads this
      ensures IdsOf(r) == remote.order
      ensures forall i :: 0 <= i < |r| ==> r[i].id in remote.docs && r[i].data == remote.docs[r[i].id]
    {
      Listing(remote)
    }

    /** getCollection: the data of every document, without ids, in listing order. */
    function GetCollection(): (r: seq<Doc<V>>)
      requires Valid()
      reads this
      ensures |r| == |remote.order|
      ensures forall i :: 0 <= i < |r| ==> r[i] == remote.docs[remote.order[i]]
    {
      var listed := Listing(remote);
      seq(|listed|, i requires 0 <= i < |listed| => listed[i].data)
    }

    /** getElement: the data of the document `id`, or nothing when there is no such document. */
    function GetElement(id: DocId): (r: Option<Doc<V>>)
      reads this
      ensures r.Some? <==> id in remote.docs
      ensures r.Some? ==> r.value == remote.docs[id]
    {
      if id in remote.docs then Some(remote.docs[id]) else None
    }

    /** addElement: a successful write adds the element under a fresh id; a rejected one reports the save error. */
    method AddElement(t: Target, element: Doc<V>, failure: Option<string>)
      requires Valid()
      modifies this
      ensures Valid()
      ensures remote == if failure.None? then Add(old(remote), element) else old(remote)
      ensures dispatched == old(dispatched) + StartIfIdle(t, old(IsLoading(t))) + [StopLoadingAction(t)]
                            + Reported(t, Save, failure)
      ensures !IsLoading(t)
      ensures Error(t) == if failure.Some? then Some(Failed(Save, failure.value)) else old(Error(t))
      ensures OnlyFlagsDiffer(t, old(shoppingList), old(recipes))
    {
      StartLoading(t);
      if failure.None? {
        AddKeepsValid(remote, element);
        remote := Add(remote, element);
      }
      StopLoading(t);
      if failure.Some? {
        RegisterError(t, Failed(Save, failure.value));
      }
    }

    /** deleteElement: a successful delete removes document `id`; a rejected one reports the delete error. */
    method DeleteElement(t: Target, id: DocId, failure: Option<string>)
      requires Valid()
      modifies this
      ensures Valid()
      ensures remote == if failure.None? then Delete(old(remote), id) else old(remote)
      ensures dispatched == old(dispatched) + StartIfIdle(t, old(IsLoading(t))) + [StopLoadingAction(t)]
                            + Reported(t, Remove, failure)
      ensures !IsLoading(t)
      ensures Error(t) == if failure.Some? then Some(Failed(Remove, failure.value)) else old(Error(t))
      ensures OnlyFlagsDiffer(t, old(shoppingList), old(recipes))
    {
      StartLoading(t);
      if failure.None? {
        remote := Delete(remote, id);
      }
      StopLoading(t);
      if failure.Some? {
        RegisterError(t, Failed(Remove, failure.value));
      }
    }

    /**
     * editElement: a successful update merges the element's fields into
     * document `id`; a rejected one reports the edit error. The backend
     * rejects an update of a missing document.
     */
    method EditElement(t: Target, id: DocId, element: Doc<V>, failure: Option<string>)
      requires Valid()
      requires id in remote.docs || failure.Some?
      modifies this
      ensures Valid()
      ensures remote == if failure.None? then Update(old(remote), id, element) else old(remote)
      ensures dispatched == old(dispatched) + StartIfIdle(t, old(IsLoading(t))) + [StopLoadingAction(t)]
                            + Reported(t, Edit, failure)
      ensures !IsLoading(t)
      ensures Error(t) == if failure.Some? then Some(Failed(Edit, failure.value)) else old(Error(t))
      ensures OnlyFlagsDiffer(t, old(shoppingList), old(recipes))
    {
      StartLoading(t);
      if failure.None? {
        remote := Update(remote, id, element);
      }
      StopLoading(t);
      if failure.Some? {
        RegisterError(t, Failed(Edit, failure.value));
      }
    }

    /**
     * addElementCheckingIfExists: search by the unique field, then edit the
     * first match or add the element; `failure` is the backend's answer to
     * that write.
     */
    method AddElementCheckingIfExists(t: Target, element: Doc<V>, fieldPath: string, failure: Option<string>)
      requires Valid() && fieldPath in element
      modifies this
      ensures Valid()
      ensures remote == if failure.None? then AddIfAbsent(old(remote), element, fieldPath) else old(remote)
      ensures dispatched == old(dispatched) + StartIfIdle(t, old(IsLoading(t)))
                            + [StopLoadingAction(t)] + [StartLoadingAction(t)] + [StopLoadingAction(t)]
                            + Reported(t, UpsertWrite(old(remote), element, fieldPath), failure)
      ensures !IsLoading(t)
      ensures Error(t) == if failure.Some? then Some(Failed(UpsertWrite(old(remote), element, fieldPath), failure.value))
                          else old(Error(t))
      ensures OnlyFlagsDiffer(t, old(shoppingList), old(recipes))
    {
      StartLoading(t);
      var data := SearchElement(element, fieldPath);
      StopLoading(t);
      if |data| != 0 {
        assert data[0] in data;
        EditElement(t, data[0].id, element, failure);
      } else {
        AddElement(t, element, failure);
      }
    }

    /**
     * customAddElementCheckingIfExists: as addElementCheckingIfExists, but
     * the first match is overwritten with `addMethod(match, element)`.
     */
    method CustomAddElementCheckingIfExists(t: Target, element: Doc<V>, fieldPath: string,
                                            addMethod: (Match<V>, Doc<V>) -> Doc<V>, failure: Option<string>)
      requires Valid() && fieldPath in element
      modifies this
      ensures Valid()
      ensures remote == if failure.None? then CustomAddIfAbsent(old(remote), element, fieldPath, addMethod) else old(remote)
      ensures dispatched == old(dispatched) + StartIfIdle(t, old(IsLoading(t)))
                            + [StopLoadingAction(t)] + [StartLoadingAction(t)] + [StopLoadingAction(t)]
                            + Reported(t, UpsertWrite(old(remote), element, fieldPath), failure)
      ensures !IsLoading(t)
      ensures Error(t) == if failure.Some? then Some(Failed(UpsertWrite(old(remote), element, fieldPath), failure.value))
                          else old(Error(t))
      ensures OnlyFlagsDiffer(t, old(shoppingList), old(recipes))
    {
      StartLoading(t);
      var data := SearchElement(element, fieldPath);
      StopLoading(t);
      if |data| != 0 {
        assert data[0] in data;
        var finalElement := addMethod(data[0], element);
        EditElement(t, data[0].id, finalElement, failure);
      } else {
        AddElement(t, element, failure);
      }
    }

    /**
     * deleteElementCheckingIfExists: delete the first match; with no match
     * nothing is deleted and the not-found error is reported.
     */
    method DeleteElementCheckingIfExists(t: Target, element: Doc<V>, fieldPath: string, failure: Option<string>)
      requires Valid() && fieldPath in element
      modifies this
      ensures Valid()
      ensures var hits := Search(old(remote), element, fieldPath);
        && (|hits| != 0 && failure.None? ==> remote == DeleteIfExists(old(remote), element, fieldPath))
        && (|hits| == 0 || failure.Some? ==> remote == old(remote))
      ensures |Search(old(remote), element, fieldPath)| != 0 ==>
        dispatched == old(dispatched) + StartIfIdle(t, old(IsLoading(t))) + [StopLoadingAction(t)]
                      + [StartLoadingAction(t)] + [StopLoadingAction(t)] + Reported(t, Remove, failure)
      ensures |Search(old(remote), element, fieldPath)| == 0 ==>
        dispatched == old(dispatched) + StartIfIdle(t, old(IsLoading(t))) + [StopLoadingAction(t)]
                      + [ErrorAction(t, NotFoundMessage)]
      ensures !IsLoading(t)
      ensures var hits := Search(old(remote), element, fieldPath);
        Error(t) == if |hits| == 0 then Some(NotFoundMessage)
                    else if failure.Some? then Some(Failed(Remove, failure.value))
                    else old(Error(t))
      ensures OnlyFlagsDiffer(t, old(shoppingList), old(recipes))
    {
      StartLoading(t);
      var data := SearchElement(element, fieldPath);
      StopLoading(t);
      if |data| != 0 {
        DeleteElement(t, data[0].id, failure);
      } else {
        StopLoading(t);
        RegisterError(t, NotFoundMessage);
      }
    }

    /**
     * addElementsCheckingIfExists, one element after another: `failures[i]`
     * is the backend's answer to the write for element i.
     */
    method AddElementsCheckingIfExists(t: Target, elements: seq<Doc<V>>, fieldPath: string, failures: seq<Option<string>>)
      requires Valid() && |failures| == |elements| && AllHave(elements, fieldPath)
      modifies this
      ensures Valid()
      ensures remote == AddAllIfAbsent(old(remote), elements, fieldPath, failures)
      ensures IsLoading(t) == (old(IsLoading(t)) && |elements| == 0)
      ensures LastFailure(failures).None? ==> Error(t) == old(Error(t))
      ensures LastFailure(failures).Some? ==> UpsertReported(Error(t), LastFailure(failures).value)
      ensures OnlyFlagsDiffer(t, old(shoppingList), old(recipes))
    {
      for i := 0 to |elements|
        invariant Valid()
        invariant remote == AddAllIfAbsent(old(remote), elements[..i], fieldPath, failures[..i])
        invariant IsLoading(t) == (old(IsLoading(t)) && i == 0)
        invariant LastFailure(failures[..i]).None? ==> Error(t) == old(Error(t))
        invariant LastFailure(failures[..i]).Some? ==> UpsertReported(Error(t), LastFailure(failures[..i]).value)
        invariant OnlyFlagsDiffer(t, old(shoppingList), old(recipes))
      {
        LastFailureStep(failures, i);
        AddAllIfAbsentStep(old(remote), elements, fieldPath, failures, i);
        ghost var w := UpsertWrite(remote, elements[i], fieldPath);
        assert w == Edit || w == Save;
        AddElementCheckingIfExists(t, elements[i], fieldPath, failures[i]);
        assert failures[i].Some? ==> UpsertReported(Error(t), failures[i].value);
      }
      assert elements[..|elements|] == elements && failures[..|failures|] == failures;
    }

    /** customAddElementsCheckingIfExists, one element after another. */
    method CustomAddElementsCheckingIfExists(t: Target, elements: seq<Doc<V>>, fieldPath: string,
                                             addMethod: (Match<V>, Doc<V>) -> Doc<V>, failures: seq<Option<string>>)
      requires Valid() && |failures| == |elements| && AllHave(elements, fieldPath)
      modifies this
      ensures Valid()
      ensures remote == CustomAddAllIfAbsent(old(remote), elements, fieldPath, addMethod, failures)
      ensures IsLoading(t) == (old(IsLoading(t)) && |elements| == 0)
      ensures LastFailure(failures).None? ==> Error(t) == old(Error(t))
      ensures LastFailure(failures).Some? ==> UpsertReported(Error(t), LastFailure(failures).value)
      ensures OnlyFlagsDiffer(t, old(shoppingList), old(recipes))
    {
      for i := 0 to |elements|
        invariant Valid()
        invariant remote == CustomAddAllIfAbsent(old(remote), elements[..i], fieldPath, addMethod, failures[..i])
        invariant IsLoading(t) == (old(IsLoading(t)) && i == 0)
        invariant LastFailure(failures[..i]).None? ==> Error(t) == old(Error(t))
        invariant LastFailure(failures[..i]).Some? ==> UpsertReported(Error(t), LastFailure(failures[..i]).value)
        invariant OnlyFlagsDiffer(t, old(shoppingList), old(recipes))
      {
        LastFailureStep(failures, i);
        CustomAddAllIfAbsentStep(old(remote), elements, fieldPath, addMethod, failures, i);
        ghost var w := UpsertWrite(remote, elements[i], fieldPath);
        assert w == Edit || w == Save;
        CustomAddElementCheckingIfExists(t, elements[i], fieldPath, addMethod, failures[i]);
        assert failures[i].Some? ==> UpsertReported(Error(t), failures[i].value);
      }
      assert elements[..|elements|] == elements && failures[..|failures|] == failures;
    }

    /** addElements: every element is added, one after another. */
    method AddElements(t: Target, elements: seq<Doc<V>>, failures: seq<Option<string>>)
      requires Valid() && |failures| == |elements|
      modifies this
      ensures Valid()
      ensures remote == AddAll(old(remote), elements, failures)
      ensures IsLoading(t) == (old(IsLoading(t)) && |elements| == 0)
      ensures Error(t) == if LastFailure(failures).Some? then Some(Failed(Save, LastFailure(failures).value))
                          else old(Error(t))
      ensures OnlyFlagsDiffer(t, old(shoppingList), old(recipes))
    {
      for i := 0 to |elements|
        invariant Valid()
        invariant remote == AddAll(old(remote), elements[..i], failures[..i])
        invariant IsLoading(t) == (old(IsLoading(t)) && i == 0)
        invariant Error(t) == if LastFailure(failures[..i]).Some? then Some(Failed(Save, LastFailure(failures[..i]).value))
                              else old(Error(t))
        invariant OnlyFlagsDiffer(t, old(shoppingList), old(recipes))
      {
        LastFailureStep(failures, i);
        AddAllStep(old(remote), elements, failures, i);
        AddElement(t, elements[i], failures[i]);
      }
      assert elements[..|elements|] == elements && failures[..|failures|] == failures;
    }

    /**
     * deleteCollection: list the collection once, then delete every listed
     * document; `failures[i]` answers the delete of the i-th listed one.
     */
    method DeleteCollection(t: Target, failures: seq<Option<string>>)
      requires Valid() && |failures| == |remote.order|
      modifies this
      ensures Valid()
      ensures remote == DeleteAll(old(remote), old(remote.order), failures)
      ensures !IsLoading(t)
      ensures Error(t) == if LastFailure(failures).Some? then Some(Failed(Remove, LastFailure(failures).value))
                          else old(Error(t))
      ensures OnlyFlagsDiffer(t, old(shoppingList), old(recipes))
    {
      StartLoading(t);
      var data := GetCollectionWithId();
      StopLoading(t);
      ghost var ids := remote.order;
      assert forall i :: 0 <= i < |data| ==> data[i].id == ids[i];
      assert failures[..0] == [];
      for i := 0 to |data|
        invariant Valid()
        invariant remote == DeleteAll(old(remote), ids[..i], failures[..i])
        invariant !IsLoading(t)
        invariant LastFailure(failures[..i]).None? ==> Error(t) == old(Error(t))
        invariant LastFailure(failures[..i]).Some? ==> Error(t) == Some(Failed(Remove, LastFailure(failures[..i]).value))
        invariant OnlyFlagsDiffer(t, old(shoppingList), old(recipes))
      {
        LastFailureStep(failures, i);
        DeleteAllStep(old(remote), ids, failures, i);
        DeleteElement(t, data[i].id, failures[i]);
      }
      assert ids[..|ids|] == ids && failures[..|failures|] == failures;
    }
  }
}
